/** Worker sharding of the iterable dataset (`AISIterDataset.__iter__`). The object
    source is a sequence; reading an object's content (through the optional ETL)
    is a parameter. */
module IterDataset {
  import opened Wrappers

  datatype Obj = Obj(name: string)

  /** `torch.utils.data.get_worker_info()` inside a worker process. */
  datatype WorkerInfo = WorkerInfo(id: int, numWorkers: int)

  /** `islice` refuses a negative start or a step below one. */
  datatype IterError = ValueError

  /** `itertools.islice(s, start, None, step)`. */
  function Islice<T>(s: seq<T>, start: nat, step: nat): (r: seq<T>)
    requires step >= 1
    decreases |s| - start
  {
    if start >= |s| then [] else [s[start]] + Islice(s, start + step, step)
  }

  /** The number of positions `0, step, 2 * step, …` below `len`. */
  function CeilDiv(len: int, step: nat): nat
    requires step >= 1
    decreases len
  {
    if len <= 0 then 0 else 1 + CeilDiv(len - step, step)
  }

  /** `k` positions fit below `len` exactly when `k * step < len`. */
  lemma {:induction false} BelowCount(len: int, step: nat, k: nat)
    requires step >= 1
    ensures k < CeilDiv(len, step) <==> k * step < len
    decreases len
  {
    if len > 0 && k > 0 {
      BelowCount(len - step, step, k - 1);
      assert (k - 1) * step == k * step - step;
    }
  }

  /** The count in closed form: `ceil(len / step)`, written `(len + step - 1) / step`. */
  lemma {:induction false} CeilDivClosed(len: int, step: nat)
    requires step >= 1
    ensures CeilDiv(len, step) == if len <= 0 then 0 else (len + step - 1) / step
    decreases len
  {
    if len > 0 {
      CeilDivClosed(len - step, step);
      if len <= step {
        DivModUnique(len + step - 1, step, 1, len - 1);
      } else {
        var q := (len - 1) / step;
        var m := (len - 1) % step;
        assert (q + 1) * step == q * step + step;
        DivModUnique(len + step - 1, step, q + 1, m);
      }
    }
  }

  /** The `k`-th element of a slice is the source element at `start + k * step`, and
      the slice holds `ceil((|s| - start) / step)` elements. */
  lemma {:induction false} IsliceIndex<T>(s: seq<T>, start: nat, step: nat)
    requires step >= 1
    ensures |Islice(s, start, step)| == CeilDiv(|s| - start, step)
    ensures forall k :: 0 <= k < |Islice(s, start, step)| ==>
      start + k * step < |s| && Islice(s, start, step)[k] == s[start + k * step]
    decreases |s| - start
  {
    if start < |s| {
      IsliceIndex(s, start + step, step);
      var rest := Islice(s, start + step, step);
      assert Islice(s, start, step) == [s[start]] + rest;
      forall k | 1 <= k < |Islice(s, start, step)|
        ensures start + k * step < |s| && Islice(s, start, step)[k] == s[start + k * step]
      {
        assert Islice(s, start, step)[k] == rest[k - 1];
        assert start + step + (k - 1) * step == start + k * step;
      }
    }
  }

  /** Position `i` of the source lands in the shard of worker `w` out of `n` exactly
      when `i mod n == w`, and then at place `i / n` of that shard. */
  lemma InShard<T>(s: seq<T>, w: nat, n: nat, i: nat)
    requires 0 <= w < n && i < |s|
    ensures (exists k :: 0 <= k < |Islice(s, w, n)| && w + k * n == i) <==> i % n == w
    ensures i % n == w ==> i / n < |Islice(s, w, n)| && Islice(s, w, n)[i / n] == s[i]
  {
    if i % n == w {
      ShardHolds(s, w, n, i);
    }
    if exists k :: 0 <= k < |Islice(s, w, n)| && w + k * n == i {
      var k :| 0 <= k < |Islice(s, w, n)| && w + k * n == i;
      DivModUnique(i, n, k, w);
    }
  }

  lemma ShardHolds<T>(s: seq<T>, w: nat, n: nat, i: nat)
    requires 0 <= w < n && i < |s| && i % n == w
    ensures i / n < |Islice(s, w, n)| && w + (i / n) * n == i && Islice(s, w, n)[i / n] == s[i]
  {
    var k := i / n;
    assert w + k * n == i;
    BelowCount(|s| - w, n, k);
    IsliceIndex(s, w, n);
  }

  /** Multiplying by a natural keeps order; a step of `MulStep`. */
  lemma MulMono(a: int, b: int, n: nat)
    requires a <= b
    ensures a * n <= b * n
  {
  }

  /** A larger quotient is at least one divisor further on. */
  lemma MulStep(a: int, b: int, n: nat)
    ensures a < b ==> a * n + n <= b * n
  {
    if a < b {
      assert (a + 1) * n == a * n + n;
      MulMono(a + 1, b, n);
    }
  }

  /** Euclidean division has only one quotient and remainder. */
  lemma DivModUnique(i: int, n: nat, q: int, m: int)
    requires n >= 1 && 0 <= m < n && i == q * n + m
    ensures i / n == q && i % n == m
  {
    var q2 := i / n;
    assert i == q2 * n + i % n;
    MulStep(q, q2, n);
    MulStep(q2, q, n);
  }

  /** The shards of workers `0 .. n - 1` split the source: every position belongs to
      the shard of exactly one worker. */
  lemma ShardsPartition<T>(s: seq<T>, n: nat, i: nat)
    requires n >= 1 && i < |s|
    ensures 0 <= i % n < n && i / n < |Islice(s, i % n, n)| && Islice(s, i % n, n)[i / n] == s[i]
    ensures forall w :: 0 <= w < n && (exists k :: 0 <= k < |Islice(s, w, n)| && w + k * n == i) ==> w == i % n
  {
    InShard(s, i % n, n, i);
    forall w | 0 <= w < n && (exists k :: 0 <= k < |Islice(s, w, n)| && w + k * n == i)
      ensures w == i % n
    {
      InShard(s, w, n, i);
    }
  }

  /** What one step of the generator yields: the name and the content. */
  function Sample(o: Obj, read: Obj -> seq<bv8>): (string, seq<bv8>) {
    (o.name, read(o))
  }

  /** `__iter__`. Outside a worker every object is yielded in source order; worker `id`
      of `numWorkers` yields the objects at `id, id + numWorkers, …`. */
  function Iter(objs: seq<Obj>, worker: Option<WorkerInfo>, read: Obj -> seq<bv8>)
    : (r: Result<seq<(string, seq<bv8>)>, IterError>)
    ensures worker.None? ==>
      r.Ok? && |r.value| == |objs| &&
      (forall i :: 0 <= i < |objs| ==> r.value[i] == (objs[i].name, read(objs[i])))
    ensures worker.Some? ==> (r.Err? <==> worker.value.id < 0 || worker.value.numWorkers < 1)
    ensures worker.Some? && r.Ok? ==>
      var w := worker.value;
      |r.value| == CeilDiv(|objs| - w.id, w.numWorkers) &&
      forall k :: 0 <= k < |r.value| ==>
        w.id + k * w.numWorkers < |objs| &&
        r.value[k] == (objs[w.id + k * w.numWorkers].name, read(objs[w.id + k * w.numWorkers]))
  {
    match worker
    case None => Ok(seq(|objs|, i requires 0 <= i < |objs| => Sample(objs[i], read)))
    case Some(w) =>
      if w.id < 0 || w.numWorkers < 1 then Err(ValueError)
      else
        var shard := Islice(objs, w.id, w.numWorkers);
        IsliceIndex(objs, w.id, w.numWorkers);
        Ok(seq(|shard|, k requires 0 <= k < |shard| => Sample(shard[k], read)))
  }
}
