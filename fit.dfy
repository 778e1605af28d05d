/**
 * The split engine `fit`: first-fit packing of file headers into buckets,
 * one bucket per output archive.
 */
module Fit {
  import opened UInt64
  import opened Results
  import opened ZipHeader
  import opened Namer

  /** The fields of `Config` that `fit` reads (the source archive path is only used for I/O). */
  datatype Config = Config(sourceArchive: string, nameTemplate: string, splitSize: u64)

  /** The value of one bucket: its file name, its running `size` and its headers in insertion order. */
  datatype BucketView = BucketView(filename: string, size: u64, files: seq<FileHeader>)

  /** `Bucket`: one future output archive, grown in place while packing. */
  class Bucket {
    const filename: string
    var size: u64
    var files: seq<FileHeader>

    constructor (filename: string, size: u64, files: seq<FileHeader>)
      ensures this.filename == filename && this.size == size && this.files == files
    {
      this.filename := filename;
      this.size := size;
      this.files := files;
    }

    function View(): BucketView
      reads this
    {
      BucketView(filename, size, files)
    }
  }

  /** The values of a list of buckets. */
  function Views(bs: seq<Bucket>): (vs: seq<BucketView>)
    reads bs
    ensures |vs| == |bs|
    ensures forall k :: 0 <= k < |bs| ==> vs[k] == bs[k].View()
  {
    seq(|bs|, k reads bs requires 0 <= k < |bs| => bs[k].View())
  }

  lemma ViewsAppend(bs: seq<Bucket>, b: Bucket)
    ensures Views(bs + [b]) == Views(bs) + [b.View()]
  {
  }

  /** No bucket object appears twice in the list. */
  predicate Distinct(bs: seq<Bucket>)
  {
    forall p, q :: 0 <= p < q < |bs| ==> bs[p] != bs[q]
  }

  lemma DistinctAppend(bs: seq<Bucket>, b: Bucket)
    requires Distinct(bs) && b !in bs
    ensures Distinct(bs + [b])
  {
  }

  /** The bound every bucket is compared with: `splitSize - 22` in uint64, which wraps when `splitSize < 22`. */
  function Limit(splitSize: u64): u64
  {
    Sub64(splitSize, EndOfCentralDirectorySize)
  }

  /** The test of `fit`: `bucket.size + totalSize <= config.splitSize - 22`, all in uint64. */
  predicate Fits(b: BucketView, cost: u64, limit: u64)
  {
    Add64(b.size, cost) <= limit
  }

  /** The index of the first bucket that passes the test, or `|bs|` when none does. */
  function FirstFit(bs: seq<BucketView>, cost: u64, limit: u64): (k: nat)
    ensures k <= |bs|
  {
    if |bs| == 0 then 0
    else if Fits(bs[0], cost, limit) then 0
    else 1 + FirstFit(bs[1..], cost, limit)
  }

  /** `FirstFit` is the lowest index that passes the test: the bucket there passes, every earlier one fails. */
  lemma {:induction false} FirstFitIsFirst(bs: seq<BucketView>, cost: u64, limit: u64)
    ensures var k := FirstFit(bs, cost, limit);
      && (k < |bs| ==> Fits(bs[k], cost, limit))
      && (forall j :: 0 <= j < k ==> !Fits(bs[j], cost, limit))
  {
    if |bs| > 0 && !Fits(bs[0], cost, limit) {
      FirstFitIsFirst(bs[1..], cost, limit);
      var k := FirstFit(bs, cost, limit);
      forall j | 0 <= j < k ensures !Fits(bs[j], cost, limit) {
        if j > 0 {
          assert bs[j] == bs[1..][j - 1];
        }
      }
    }
  }

  /** A bucket after `f` has been added to it: the cost is added to `size`, `f` is appended. */
  function Grow(b: BucketView, f: FileHeader): BucketView
  {
    BucketView(b.filename, Add64(b.size, EntryCost(f)), b.files + [f])
  }

  /** The bucket `fit` opens for `f`: its size is `CompressedSize64` alone, without the header overhead. */
  function Open(name: string, f: FileHeader): BucketView
  {
    BucketView(name, f.compressedSize64, [f])
  }

  /** One iteration of the outer loop of `fit`: place `f`, naming a new bucket `name` if one is needed. */
  function Place(bs: seq<BucketView>, f: FileHeader, limit: u64, name: string): seq<BucketView>
  {
    var k := FirstFit(bs, EntryCost(f), limit);
    if k < |bs| then bs[k := Grow(bs[k], f)] else bs + [Open(name, f)]
  }

  /**
   * What `fit` computes for a valid template: the entries placed one after
   * another in input order; the k-th bucket opened (0-based) is named
   * `format(template, k + 1)`.
   */
  function Pack(files: seq<FileHeader>, limit: u64, format: Formatter, template: string): seq<BucketView>
    decreases |files|
  {
    if files == [] then []
    else
      var bs := Pack(files[..|files| - 1], limit, format, template);
      Place(bs, files[|files| - 1], limit, format(template, |bs| + 1))
  }

  /** Packing one more entry of the input is one more `Place`. */
  lemma PackStep(files: seq<FileHeader>, i: nat, limit: u64, format: Formatter, template: string, bs: seq<BucketView>)
    requires i < |files| && bs == Pack(files[..i], limit, format, template)
    ensures Pack(files[..i + 1], limit, format, template) == Place(bs, files[i], limit, format(template, |bs| + 1))
  {
    assert files[..i + 1][..i] == files[..i];
  }

  /** The result of `fit`: the template error before anything else, otherwise the packed buckets. */
  function FitResult(files: seq<FileHeader>, config: Config, format: Formatter): Result<seq<BucketView>>
  {
    if !ValidTemplate(format, config.nameTemplate) then Failure(InvalidTemplate)
    else Success(Pack(files, Limit(config.splitSize), format, config.nameTemplate))
  }

  /**
   * The inner loop of `fit` (`for _, bucket := range buckets`): add `file` to
   * the first bucket that passes the test and report whether one did.
   */
  method AddToFirstFitting(buckets: seq<Bucket>, file: FileHeader, splitSize: u64) returns (added: bool)
    requires Distinct(buckets)
    modifies buckets
    ensures var before := old(Views(buckets));
            var k := FirstFit(before, EntryCost(file), Limit(splitSize));
            && added == (k < |buckets|)
            && Views(buckets) == if added then before[k := Grow(before[k], file)] else before
  {
    ghost var before := Views(buckets);
    ghost var cost := EntryCost(file);
    ghost var limit := Limit(splitSize);
    added := false;
    var j := 0;
    while !added && j < |buckets|
      invariant 0 <= j <= |buckets|
      invariant forall p :: 0 <= p < j ==> !Fits(before[p], cost, limit)
      invariant !added ==> forall p :: 0 <= p < |buckets| ==> buckets[p].View() == before[p]
      invariant added ==> j < |buckets| && Fits(before[j], cost, limit)
      invariant added ==> forall p :: 0 <= p < |buckets| ==>
                            buckets[p].View() == if p == j then Grow(before[p], file) else before[p]
      decreases |buckets| - j, if added then 0 else 1
    {
      var bucket := buckets[j];
      var totalSize := EntryCost(file);
      if Add64(bucket.size, totalSize) <= Sub64(splitSize, EndOfCentralDirectorySize) {
        bucket.size := Add64(bucket.size, totalSize);
        bucket.files := bucket.files + [file];
        added := true;
      } else {
        assert bucket.View() == before[j];
        j := j + 1;
      }
    }
    FirstFitIsFirst(before, cost, limit);
    assert added ==> j == FirstFit(before, cost, limit);
    assert !added ==> FirstFit(before, cost, limit) == |buckets|;
    assert Views(buckets) == if added then before[j := Grow(before[j], file)] else before;
  }

  /** The `if !added` branch of `fit`: append a bucket holding only `file`, named by the next call of the namer. */
  method OpenBucket(buckets: seq<Bucket>, namer: FileNamer, file: FileHeader) returns (buckets': seq<Bucket>)
    requires Distinct(buckets)
    modifies namer
    ensures Distinct(buckets') && |buckets'| == |buckets| + 1 && namer.n == old(namer.n) + 1
    ensures forall k :: 0 <= k < |buckets| ==> buckets'[k] == buckets[k]
    ensures fresh(buckets'[|buckets|])
    ensures Views(buckets') == old(Views(buckets)) + [Open(namer.format(namer.template, old(namer.n)), file)]
  {
    ghost var before := Views(buckets);
    var filename := namer.Next();
    assert Views(buckets) == before;
    var bucket := new Bucket(filename, file.compressedSize64, [file]);
    assert Views(buckets) == before;
    ViewsAppend(buckets, bucket);
    DistinctAppend(buckets, bucket);
    buckets' := buckets + [bucket];
  }

  /**
   * One pass of the outer loop of `fit` for `files[i]`: the inner loop, then,
   * if no bucket took the entry, a new bucket.
   */
  method PlaceEntry(buckets: seq<Bucket>, namer: FileNamer, files: seq<FileHeader>, i: nat, splitSize: u64)
    returns (buckets': seq<Bucket>)
    requires i < |files| && Distinct(buckets) && namer.n == |buckets| + 1
    requires Views(buckets) == Pack(files[..i], Limit(splitSize), namer.format, namer.template)
    modifies buckets, namer
    ensures Distinct(buckets') && |buckets| <= |buckets'| && namer.n == |buckets'| + 1
    ensures forall k :: 0 <= k < |buckets| ==> buckets'[k] == buckets[k]
    ensures |buckets'| <= |buckets| + 1
    ensures |buckets'| == |buckets| + 1 ==> fresh(buckets'[|buckets|])
    ensures Views(buckets') == Pack(files[..i + 1], Limit(splitSize), namer.format, namer.template)
  {
    PackStep(files, i, Limit(splitSize), namer.format, namer.template, Views(buckets));
    var added := AddToFirstFitting(buckets, files[i], splitSize);
    buckets' := buckets;
    if !added {
      buckets' := OpenBucket(buckets, namer, files[i]);
      assert fresh(buckets'[|buckets|]);
    }
  }

  /**
   * `fit`. The namer is created (and the template checked) before any entry is
   * looked at; each entry then goes to the first bucket that passes the test,
   * or into a new bucket named by the next call of the namer.
   */
  method Fit(files: seq<FileHeader>, config: Config, format: Formatter) returns (r: Result<seq<Bucket>>)
    ensures r.Failure? <==> !ValidTemplate(format, config.nameTemplate)
    ensures r.Failure? ==> r.error == InvalidTemplate
    ensures r.Success? ==> Distinct(r.value) && forall k :: 0 <= k < |r.value| ==> fresh(r.value[k])
    ensures r.Success? ==> Success(Views(r.value)) == FitResult(files, config, format)
  {
    var buckets: seq<Bucket> := [];
    var namerResult := NumberedFileNamer(config.nameTemplate, format);
    if namerResult.Failure? {
      return Failure(namerResult.error);
    }
    var newZipName := namerResult.value;

    for i := 0 to |files|
      invariant newZipName.template == config.nameTemplate && newZipName.format == format
      invariant newZipName.n == |buckets| + 1
      invariant Distinct(buckets) && forall k :: 0 <= k < |buckets| ==> fresh(buckets[k])
      invariant Views(buckets) == Pack(files[..i], Limit(config.splitSize), format, config.nameTemplate)
    {
      buckets := PlaceEntry(buckets, newZipName, files, i, config.splitSize);
    }
    assert files[..|files|] == files;
    return Success(buckets);
  }
}
