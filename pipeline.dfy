/**
 * The part of `main` between reading the archive and writing the parts:
 * sort the headers by compressed size, largest first, refuse an entry that can
 * never fit, then run the split engine.
 */
module Pipeline {
  import opened UInt64
  import opened Results
  import opened ZipHeader
  import opened Namer
  import opened Fit

  /** `bySize.Less`: `x` is smaller than `y` by compressed size. */
  predicate Less(x: FileHeader, y: FileHeader)
  {
    x.compressedSize64 < y.compressedSize64
  }

  /** Sorted for `sort.Reverse(bySize(...))`: no header is smaller than a later one. */
  predicate NonIncreasing(s: seq<FileHeader>)
  {
    forall i, j :: 0 <= i < j < |s| ==> !Less(s[i], s[j])
  }

  /** `bySize.Swap`: exchange two headers in place. */
  method Swap(a: array<FileHeader>, i: nat, j: nat)
    requires i < a.Length && j < a.Length
    modifies a
    ensures a[..] == old(a[..])[i := old(a[j])][j := old(a[i])]
    ensures multiset(a[..]) == old(multiset(a[..]))
  {
    a[i], a[j] := a[j], a[i];
  }

  /**
   * `sort.Sort(sort.Reverse(bySize(files)))`, written as a selection sort over
   * `Less` and `Swap`. Only its result is relied on: the headers are a
   * permutation of the input in non-increasing order of compressed size. The
   * order among headers of equal size is not specified (the sort is not stable).
   */
  method SortBySizeDescending(a: array<FileHeader>)
    modifies a
    ensures NonIncreasing(a[..])
    ensures multiset(a[..]) == old(multiset(a[..]))
  {
    var i := 0;
    while i < a.Length
      invariant 0 <= i <= a.Length
      invariant forall p, q :: 0 <= p < q < i ==> !Less(a[p], a[q])
      invariant forall p, q :: 0 <= p < i <= q < a.Length ==> !Less(a[p], a[q])
      invariant multiset(a[..]) == old(multiset(a[..]))
    {
      var m := i;
      var j := i + 1;
      while j < a.Length
        invariant i <= m < a.Length && i < j <= a.Length
        invariant forall q :: i <= q < j ==> !Less(a[m], a[q])
      {
        if Less(a[m], a[j]) {
          m := j;
        }
        j := j + 1;
      }
      Swap(a, i, m);
      i := i + 1;
    }
  }

  /** How the run of `main` ends after the archive has been read. */
  datatype Outcome =
    | IndexPanic                      // an empty archive: `files[0]` is read to report it
    | CannotFit(entry: FileHeader)    // "Can never fit ...", exit status 1
    | Rejected(error: Error)          // `fit` failed, exit status 1
    | Split(buckets: seq<Bucket>)     // one part per bucket is written next

  /** In a non-increasing list the first header is at least as large as every other. */
  lemma {:induction false} FirstIsLargest(s: seq<FileHeader>, limit: u64)
    requires NonIncreasing(s) && |s| > 0
    ensures s[0].compressedSize64 > limit <==> exists i :: 0 <= i < |s| && s[i].compressedSize64 > limit
  {
    if exists i :: 0 <= i < |s| && s[i].compressedSize64 > limit {
      var i :| 0 <= i < |s| && s[i].compressedSize64 > limit;
      if i > 0 {
        assert !Less(s[0], s[i]);
      }
    }
  }

  /**
   * `main` from the sort to the call of `fit`: the headers are sorted largest
   * first; an empty list makes the report of the "largest" entry index out of
   * range; a header whose compressed data alone exceeds the split size stops the
   * run; otherwise the buckets are those of `fit` on the sorted headers.
   */
  method SplitArchive(files: array<FileHeader>, config: Config, format: Formatter) returns (outcome: Outcome)
    modifies files
    ensures NonIncreasing(files[..]) && multiset(files[..]) == old(multiset(files[..]))
    ensures outcome.IndexPanic? <==> files.Length == 0
    ensures outcome.CannotFit? <==>
              exists i :: 0 <= i < files.Length && files[i].compressedSize64 > config.splitSize
    ensures outcome.CannotFit? ==> outcome.entry == files[0]
    ensures outcome.Rejected? <==>
              && files.Length > 0
              && (forall i :: 0 <= i < files.Length ==> files[i].compressedSize64 <= config.splitSize)
              && !ValidTemplate(format, config.nameTemplate)
    ensures outcome.Rejected? ==> outcome.error == InvalidTemplate
    ensures outcome.Split? ==> Distinct(outcome.buckets) && forall k :: 0 <= k < |outcome.buckets| ==> fresh(outcome.buckets[k])
    ensures outcome.Split? ==> Success(Views(outcome.buckets)) == FitResult(files[..], config, format)
  {
    SortBySizeDescending(files);
    if files.Length < 1 {
      return IndexPanic;
    }
    FirstIsLargest(files[..], config.splitSize);
    if files[0].compressedSize64 > config.splitSize {
      return CannotFit(files[0]);
    }
    var r := Fit.Fit(files[..], config, format);
    if r.Failure? {
      return Rejected(r.error);
    }
    return Split(r.value);
  }
}
