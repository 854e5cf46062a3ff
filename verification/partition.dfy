/** How apply_filters splits the rows of an image among its workers, and why
    running the workers one after another (in any order) gives the same
    result buffer as one pass over the whole image. */
module Partition {
  import opened Pixels
  import opened Convolution

  /** LAPLACIAN_THREADS: the number of row workers per image. */
  const LaplacianThreads: nat := 4

  /** A worker's band of rows: [start, start + size). */
  datatype Slice = Slice(start: nat, size: nat)

  function End(s: Slice): nat
  {
    s.start + s.size
  }

  /** The slice of worker i out of t for an image of h rows: every worker
      gets work = h / t rows starting at i * work, except the last, which
      gets the rest, h - (t - 1) * work. */
  function SliceOf(h: nat, t: nat, i: nat): (s: Slice)
    requires t >= 1 && i < t
    ensures End(s) <= h
  {
    var work := h / t;
    MulLe(i, t - 1, work);
    MulLe(t - 1, t, work);
    MulLe(i + 1, t, work);
    Slice(i * work, if i == t - 1 then h - i * work else work)
  }

  /** The slices of all t workers, in worker order. */
  function Slices(h: nat, t: nat): (p: seq<Slice>)
    requires t >= 1
    ensures |p| == t
  {
    seq(t, i requires 0 <= i < t => SliceOf(h, t, i))
  }

  /** The loop of apply_filters that fills the parameter block of each
      worker before starting it. */
  method PlanSlices(h: nat, t: nat) returns (params: seq<Slice>)
    requires t >= 1
    ensures params == Slices(h, t)
  {
    var work := h / t;
    params := [];
    for i := 0 to t
      invariant params == Slices(h, t)[..i]
    {
      var size := work;
      if i == t - 1 {
        size := h - i * work;
      }
      assert Slices(h, t)[i] == Slice(i * work, size);
      assert Slices(h, t)[..i + 1] == Slices(h, t)[..i] + [Slices(h, t)[i]];
      params := params + [Slice(i * work, size)];
    }
  }

  /** The slices tile [0, h) in order: the first starts at row 0, each one
      ends where the next one starts, and the last ends at row h. Slices
      of size zero are allowed (all but the last when h < t). */
  lemma PartitionContiguous(h: nat, t: nat)
    requires t >= 1
    ensures Slices(h, t)[0].start == 0
    ensures End(Slices(h, t)[t - 1]) == h
    ensures forall i :: 0 <= i < t - 1 ==> End(Slices(h, t)[i]) == Slices(h, t)[i + 1].start
  {
    SliceBounds(h, t, 0);
    SliceBounds(h, t, t - 1);
    forall i | 0 <= i < t - 1
      ensures End(Slices(h, t)[i]) == Slices(h, t)[i + 1].start
    {
      SliceBounds(h, t, i);
      SliceBounds(h, t, i + 1);
    }
  }

  /** Distinct slices never share a row: a lower-numbered slice ends no later
      than a higher-numbered one starts. */
  lemma PartitionDisjoint(h: nat, t: nat)
    requires t >= 1
    ensures forall i, j :: 0 <= i < j < t ==> End(Slices(h, t)[i]) <= Slices(h, t)[j].start
  {
    var p := Slices(h, t);
    forall i, j | 0 <= i < j < t
      ensures End(p[i]) <= p[j].start
    {
      assert End(p[i]) == (i + 1) * (h / t);
      MulLe(i + 1, j, h / t);
    }
  }

  /** The bounds of slice i: it starts at i * (h / t) and ends where slice
      i + 1 starts, or at h for the last slice. */
  lemma SliceBounds(h: nat, t: nat, i: nat)
    requires t >= 1 && i < t
    ensures Slices(h, t)[i].start == i * (h / t)
    ensures End(Slices(h, t)[i]) == if i == t - 1 then h else (i + 1) * (h / t)
  {
    assert i * (h / t) + h / t == (i + 1) * (h / t);
  }

  /** The worker that owns row y: the quotient y / (h / t), capped at the
      last worker, which also owns every row when h < t. */
  function Owner(h: nat, t: nat, y: nat): (i: nat)
    requires t >= 1
    ensures i < t
  {
    var work := h / t;
    if work == 0 then t - 1 else if y / work < t - 1 then y / work else t - 1
  }

  /** Every row of the image lies in the slice of its owner. */
  lemma OwnerCovers(h: nat, t: nat, y: nat)
    requires t >= 1 && y < h
    ensures Slices(h, t)[Owner(h, t, y)].start <= y < End(Slices(h, t)[Owner(h, t, y)])
  {
    var work := h / t;
    var o := Owner(h, t, y);
    SliceBounds(h, t, o);
    if work > 0 {
      var q := y / work;
      assert q * work <= y < q * work + work;
      assert q * work + work == (q + 1) * work;
      if q >= t - 1 {
        MulLe(t - 1, q, work);
      }
    }
  }

  /** A row lies in at most one slice, and only rows below h lie in any:
      the slices are pairwise disjoint and stay inside the image. */
  lemma SliceUnique(h: nat, t: nat, y: nat, i: nat, j: nat)
    requires t >= 1 && i < t && j < t
    requires Slices(h, t)[i].start <= y < End(Slices(h, t)[i])
    requires Slices(h, t)[j].start <= y < End(Slices(h, t)[j])
    ensures y < h && i == j
  {
    PartitionDisjoint(h, t);
  }

  /** The slices tile [0, h): row y lies in some slice exactly when y < h,
      and then in the slice of its owner and in no other. */
  lemma PartitionCovers(h: nat, t: nat, y: nat)
    requires t >= 1
    ensures y < h <==> exists i :: 0 <= i < t && Slices(h, t)[i].start <= y < End(Slices(h, t)[i])
    ensures forall i :: 0 <= i < t && Slices(h, t)[i].start <= y < End(Slices(h, t)[i]) ==>
      i == Owner(h, t, y)
  {
    if y < h {
      OwnerCovers(h, t, y);
    }
    forall i | 0 <= i < t && Slices(h, t)[i].start <= y < End(Slices(h, t)[i])
      ensures y < h && i == Owner(h, t, y)
    {
      if y < h {
        OwnerCovers(h, t, y);
        SliceUnique(h, t, y, i, Owner(h, t, y));
      } else {
        SliceUnique(h, t, y, i, i);
      }
    }
  }

  /** When there are fewer rows than workers, every worker but the last has
      an empty slice and the last one takes all rows. */
  lemma FewRows(h: nat, t: nat)
    requires 1 <= t && h < t
    ensures forall i :: 0 <= i < t - 1 ==> Slices(h, t)[i] == Slice(0, 0)
    ensures Slices(h, t)[t - 1] == Slice(0, h)
  {
    assert h / t == 0;
  }

  /** The result buffer after the workers for slices have run one after the
      other, each painting its rows. */
  function RunSlices(slices: seq<Slice>, res: seq<Pixel>, img: seq<Pixel>, w: nat, h: nat): (r: seq<Pixel>)
    requires |res| == w * h && |img| == w * h
    ensures |r| == w * h
    decreases |slices|
  {
    if slices == [] then res
    else
      var last := slices[|slices| - 1];
      PaintRange(RunSlices(slices[..|slices| - 1], res, img, w, h), img, w, h, last.start * w, End(last) * w)
  }

  /** Some slice among slices writes buffer index i. */
  ghost predicate Covered(slices: seq<Slice>, w: nat, i: nat)
  {
    exists s :: s in slices && s.start * w <= i < End(s) * w
  }

  /** After the workers of slices have run, index i holds its filtered
      pixel when some slice covers it and its old value otherwise. */
  lemma {:induction false} RunSlicesAt(slices: seq<Slice>, res: seq<Pixel>, img: seq<Pixel>, w: nat, h: nat, i: nat)
    requires |res| == w * h && |img| == w * h && i < w * h
    ensures RunSlices(slices, res, img, w, h)[i] ==
      if Covered(slices, w, i) then FilteredAt(img, w, h, i) else res[i]
    decreases |slices|
  {
    if slices != [] {
      var init := slices[..|slices| - 1];
      var last := slices[|slices| - 1];
      RunSlicesAt(init, res, img, w, h, i);
      assert slices == init + [last];
      assert Covered(slices, w, i) <==> Covered(init, w, i) || last.start * w <= i < End(last) * w;
    }
  }

  /** Running the same workers in any order gives the same result buffer:
      what a worker writes does not depend on what the others wrote. */
  lemma RunSlicesOrderIrrelevant(a: seq<Slice>, b: seq<Slice>, res: seq<Pixel>, img: seq<Pixel>, w: nat, h: nat)
    requires |res| == w * h && |img| == w * h
    requires multiset(a) == multiset(b)
    ensures RunSlices(a, res, img, w, h) == RunSlices(b, res, img, w, h)
  {
    forall i | 0 <= i < w * h
      ensures RunSlices(a, res, img, w, h)[i] == RunSlices(b, res, img, w, h)[i]
    {
      RunSlicesAt(a, res, img, w, h, i);
      RunSlicesAt(b, res, img, w, h, i);
      assert Covered(a, w, i) <==> Covered(b, w, i) by {
        forall s ensures s in a <==> s in b {
          assert s in a <==> s in multiset(a);
          assert s in b <==> s in multiset(b);
        }
      }
    }
  }

  /** Running the workers of slices[..i + 1] is running those of slices[..i]
      and then worker i. */
  lemma RunOneMore(slices: seq<Slice>, i: nat, res: seq<Pixel>, img: seq<Pixel>, w: nat, h: nat)
    requires |res| == w * h && |img| == w * h && i < |slices|
    ensures RunSlices(slices[..i + 1], res, img, w, h) ==
      PaintRange(RunSlices(slices[..i], res, img, w, h), img, w, h, slices[i].start * w, (slices[i].start + slices[i].size) * w)
  {
    assert slices[..i + 1][..i] == slices[..i];
  }

  /** Slices laid end to end from row 0. */
  ghost predicate Contiguous(slices: seq<Slice>)
  {
    && (|slices| > 0 ==> slices[0].start == 0)
    && forall i :: 0 <= i < |slices| - 1 ==> End(slices[i]) == slices[i + 1].start
  }

  /** Workers for slices laid end to end from row 0, run in order, paint
      exactly the rows [0, end of the last slice). */
  lemma {:induction false} RunContiguous(slices: seq<Slice>, res: seq<Pixel>, img: seq<Pixel>, w: nat, h: nat)
    requires |res| == w * h && |img| == w * h
    requires Contiguous(slices) && |slices| > 0
    ensures RunSlices(slices, res, img, w, h) == PaintRange(res, img, w, h, 0, End(slices[|slices| - 1]) * w)
    decreases |slices|
  {
    var n := |slices|;
    var init := slices[..n - 1];
    if n == 1 {
      assert RunSlices(init, res, img, w, h) == res;
      assert PaintRange(res, img, w, h, 0, 0) == res;
    } else {
      assert Contiguous(init);
      RunContiguous(init, res, img, w, h);
      assert End(init[n - 2]) == slices[n - 1].start;
      MulLe(slices[n - 1].start, End(slices[n - 1]), w);
      PaintRangeCompose(res, img, w, h, 0, slices[n - 1].start * w, End(slices[n - 1]) * w);
    }
  }

  /** Whatever the number of workers t >= 1 and whatever the result buffer
      held before, running all the partition's workers yields the filtered
      image: the result does not depend on the partition. */
  lemma PartitionFilters(h: nat, t: nat, res: seq<Pixel>, img: seq<Pixel>, w: nat)
    requires t >= 1
    requires |res| == w * h && |img| == w * h
    ensures RunSlices(Slices(h, t), res, img, w, h) == FilterImage(img, w, h)
  {
    PartitionContiguous(h, t);
    RunContiguous(Slices(h, t), res, img, w, h);
    PaintAllIsFilter(res, img, w, h, h * w);
  }

  /** One worker of apply_filters: the thread started on
      compute_laplacian_threadfn with its parameter block and joined (here
      at once) repaints the rows of its slice and nothing else. */
  method RunWorker(image: array<Pixel>, result: array<Pixel>, w: nat, h: nat, s: Slice)
    requires image != result
    requires image.Length == w * h && result.Length == w * h
    requires End(s) <= h
    modifies result
    ensures result[..] == PaintRange(old(result[..]), image[..], w, h, s.start * w, End(s) * w)
  {
    ComputeSlice(image, result, w, h, s.start, s.size);
  }

  /** apply_filters: allocate the result buffer, give each of the
      LAPLACIAN_THREADS workers its slice and run them (here one after the
      other); the result is the filtered image. */
  method ApplyFilters(image: array<Pixel>, w: nat, h: nat) returns (result: array<Pixel>)
    requires image.Length == w * h
    ensures fresh(result)
    ensures result[..] == FilterImage(image[..], w, h)
  {
    result := new Pixel[w * h];
    var params := PlanSlices(h, LaplacianThreads);
    ghost var res0 := result[..];
    ghost var img := image[..];
    for i := 0 to LaplacianThreads
      invariant image[..] == img
      invariant result[..] == RunSlices(params[..i], res0, img, w, h)
    {
      RunWorker(image, result, w, h, params[i]);
      RunOneMore(params, i, res0, img, w, h);
    }
    assert params[..LaplacianThreads] == params;
    PartitionFilters(h, LaplacianThreads, res0, img, w);
  }
}
