/**
 * What the packing computed by `fit` guarantees: every entry lands in exactly
 * one bucket, in input order, at the first bucket that passes the size test;
 * buckets are named in creation order; and each bucket's running size is the
 * (uint64) sum the source accumulates.
 */
module PackingProperties {
  import opened UInt64
  import opened ZipHeader
  import opened Namer
  import opened Fit

  /** The headers of all buckets, bucket after bucket. */
  function Contents(bs: seq<BucketView>): seq<FileHeader>
    decreases |bs|
  {
    if bs == [] then [] else Contents(bs[..|bs| - 1]) + bs[|bs| - 1].files
  }

  /** The sum of the per-entry costs, as a mathematical integer. */
  function TotalCost(fs: seq<FileHeader>): nat
    decreases |fs|
  {
    if fs == [] then 0 else TotalCost(fs[..|fs| - 1]) + EntryCost(fs[|fs| - 1])
  }

  /**
   * The size a bucket carries: the first entry counts with its compressed size
   * only, every later entry with its full cost, all added up in uint64; and once
   * a bucket holds two or more entries its size passed the bound test when the
   * last one was added.
   */
  ghost predicate WellFormedBucket(b: BucketView, limit: u64)
  {
    && |b.files| >= 1
    && b.size == (b.files[0].compressedSize64 + TotalCost(b.files[1..])) % Modulus
    && (|b.files| >= 2 ==> b.size <= limit)
  }

  /** The k-th bucket (0-based) is named `format(template, k + 1)`: names follow creation order. */
  ghost predicate NamedInOrder(bs: seq<BucketView>, format: Formatter, template: string)
  {
    forall k :: 0 <= k < |bs| ==> bs[k].filename == format(template, k + 1)
  }

  ghost predicate AllWellFormed(bs: seq<BucketView>, limit: u64)
  {
    forall k :: 0 <= k < |bs| ==> WellFormedBucket(bs[k], limit)
  }

  /**
   * One placement step, stated without `FirstFit`: a new bucket is opened exactly
   * when no bucket passes the test, and then it is appended after the others;
   * otherwise the lowest-index bucket that passes grows and nothing else changes.
   */
  lemma PlaceFirstFit(bs: seq<BucketView>, f: FileHeader, limit: u64, name: string)
    ensures var r := Place(bs, f, limit, name);
      && (|r| == |bs| + 1 <==> forall j :: 0 <= j < |bs| ==> !Fits(bs[j], EntryCost(f), limit))
      && (|r| == |bs| || |r| == |bs| + 1)
      && (|r| == |bs| + 1 ==> r == bs + [Open(name, f)])
      && (forall j :: 0 <= j < |bs| && Fits(bs[j], EntryCost(f), limit)
                      && (forall i :: 0 <= i < j ==> !Fits(bs[i], EntryCost(f), limit))
                      ==> r == bs[j := Grow(bs[j], f)])
  {
    var k := FirstFit(bs, EntryCost(f), limit);
    FirstFitIsFirst(bs, EntryCost(f), limit);
    if k < |bs| {
      assert !forall j :: 0 <= j < |bs| ==> !Fits(bs[j], EntryCost(f), limit);
    }
  }

  /** There are never more buckets than entries, and an empty input gives no bucket. */
  lemma {:induction false} PackCount(files: seq<FileHeader>, limit: u64, format: Formatter, template: string)
    ensures |Pack(files, limit, format, template)| <= |files|
    ensures files == [] <==> Pack(files, limit, format, template) == []
  {
    if files != [] {
      PackCount(files[..|files| - 1], limit, format, template);
    }
  }

  lemma TotalCostAppend(fs: seq<FileHeader>, f: FileHeader)
    ensures TotalCost(fs + [f]) == TotalCost(fs) + EntryCost(f)
  {
    assert (fs + [f])[..|fs|] == fs;
  }

  /** Adding an entry that passes the test keeps a bucket well formed. */
  lemma GrowWellFormed(b: BucketView, f: FileHeader, limit: u64)
    requires WellFormedBucket(b, limit) && Fits(b, EntryCost(f), limit)
    ensures WellFormedBucket(Grow(b, f), limit)
  {
    var g := Grow(b, f);
    var x := b.files[0].compressedSize64 + TotalCost(b.files[1..]);
    assert g.files[0] == b.files[0];
    assert TotalCost(g.files[1..]) == TotalCost(b.files[1..]) + EntryCost(f) by {
      assert g.files[1..] == b.files[1..] + [f];
      TotalCostAppend(b.files[1..], f);
    }
    assert g.size == (x + EntryCost(f)) % Modulus by {
      AddMod(x, EntryCost(f));
    }
  }

  /** A placement keeps every bucket well formed: the grown one passed the test, a new one holds one entry. */
  lemma PlaceWellFormed(bs: seq<BucketView>, f: FileHeader, limit: u64, name: string)
    requires AllWellFormed(bs, limit)
    ensures AllWellFormed(Place(bs, f, limit, name), limit)
  {
    var k := FirstFit(bs, EntryCost(f), limit);
    if k < |bs| {
      FirstFitIsFirst(bs, EntryCost(f), limit);
      GrowWellFormed(bs[k], f, limit);
      assert Place(bs, f, limit, name) == bs[k := Grow(bs[k], f)];
    } else {
      var o := Open(name, f);
      assert o.files[1..] == [];
      assert WellFormedBucket(o, limit);
      assert Place(bs, f, limit, name) == bs + [o];
    }
  }

  /** A placement that names a new bucket after the count so far keeps the names in creation order. */
  lemma PlaceNamedInOrder(bs: seq<BucketView>, f: FileHeader, limit: u64, format: Formatter, template: string)
    requires NamedInOrder(bs, format, template)
    ensures NamedInOrder(Place(bs, f, limit, format(template, |bs| + 1)), format, template)
  {
  }

  /**
   * The k-th bucket (0-based) is named `format(template, k + 1)`, holds at least
   * one entry, and carries the size described by `WellFormedBucket`.
   */
  lemma {:induction false} PackBuckets(files: seq<FileHeader>, limit: u64, format: Formatter, template: string)
    ensures NamedInOrder(Pack(files, limit, format, template), format, template)
    ensures AllWellFormed(Pack(files, limit, format, template), limit)
  {
    if files != [] {
      var prefix := files[..|files| - 1];
      var f := files[|files| - 1];
      var bs := Pack(prefix, limit, format, template);
      PackBuckets(prefix, limit, format, template);
      PlaceWellFormed(bs, f, limit, format(template, |bs| + 1));
      PlaceNamedInOrder(bs, f, limit, format, template);
    }
  }

  lemma ContentsAppend(bs: seq<BucketView>, b: BucketView)
    ensures Contents(bs + [b]) == Contents(bs) + b.files
  {
    assert (bs + [b])[..|bs|] == bs;
  }

  /** Growing one bucket by `f` adds exactly `f` to the multiset of all headers. */
  lemma {:induction false} ContentsGrow(bs: seq<BucketView>, k: nat, f: FileHeader)
    requires k < |bs|
    ensures multiset(Contents(bs[k := Grow(bs[k], f)])) == multiset(Contents(bs)) + multiset{f}
    decreases |bs|
  {
    var n := |bs| - 1;
    var bs' := bs[k := Grow(bs[k], f)];
    if k == n {
      assert bs'[..n] == bs[..n];
    } else {
      assert bs'[..n] == bs[..n][k := Grow(bs[..n][k], f)];
      ContentsGrow(bs[..n], k, f);
    }
  }

  /** Concatenating the buckets' headers gives back the input, up to order. */
  lemma {:induction false} PackPermutation(files: seq<FileHeader>, limit: u64, format: Formatter, template: string)
    ensures multiset(Contents(Pack(files, limit, format, template))) == multiset(files)
  {
    if files != [] {
      var prefix := files[..|files| - 1];
      var f := files[|files| - 1];
      var bs := Pack(prefix, limit, format, template);
      PackPermutation(prefix, limit, format, template);
      var k := FirstFit(bs, EntryCost(f), limit);
      if k < |bs| {
        ContentsGrow(bs, k, f);
      } else {
        ContentsAppend(bs, Open(format(template, |bs| + 1), f));
      }
      assert files == prefix + [f];
    }
  }

  /** For each input position, the index of the bucket whose test it passed first (or the new one). */
  ghost function Assignment(files: seq<FileHeader>, limit: u64, format: Formatter, template: string): (a: seq<nat>)
    ensures |a| == |files|
    decreases |files|
  {
    if files == [] then []
    else
      var n := |files| - 1;
      Assignment(files[..n], limit, format, template)
        + [FirstFit(Pack(files[..n], limit, format, template), EntryCost(files[n]), limit)]
  }

  /** Position i is assigned by the first-fit choice over the buckets built from the entries before it. */
  lemma {:induction false} AssignmentAt(files: seq<FileHeader>, limit: u64, format: Formatter, template: string, i: nat)
    requires i < |files|
    ensures Assignment(files, limit, format, template)[i]
            == FirstFit(Pack(files[..i], limit, format, template), EntryCost(files[i]), limit)
    decreases |files|
  {
    var n := |files| - 1;
    var a0 := Assignment(files[..n], limit, format, template);
    var x := FirstFit(Pack(files[..n], limit, format, template), EntryCost(files[n]), limit);
    assert Assignment(files, limit, format, template) == a0 + [x];
    if i < n {
      AssignmentAt(files[..n], limit, format, template, i);
      assert files[..n][..i] == files[..i];
      assert files[..n][i] == files[i];
    }
  }

  /** The headers at the positions that `a` sends to bucket `k`, in input order. */
  function Select(files: seq<FileHeader>, a: seq<nat>, k: nat): seq<FileHeader>
    requires |files| == |a|
    decreases |files|
  {
    if files == [] then []
    else
      var n := |files| - 1;
      Select(files[..n], a[..n], k) + (if a[n] == k then [files[n]] else [])
  }

  lemma {:induction false} SelectNone(files: seq<FileHeader>, a: seq<nat>, k: nat)
    requires |files| == |a| && forall i :: 0 <= i < |a| ==> a[i] < k
    ensures Select(files, a, k) == []
    decreases |files|
  {
    if files != [] {
      SelectNone(files[..|files| - 1], a[..|files| - 1], k);
    }
  }

  /** Every position of `a` names a bucket of `bs`, and bucket k holds exactly the headers `a` sends to k. */
  ghost predicate Collects(bs: seq<BucketView>, files: seq<FileHeader>, a: seq<nat>)
  {
    && |a| == |files|
    && (forall i :: 0 <= i < |a| ==> a[i] < |bs|)
    && (forall k :: 0 <= k < |bs| ==> bs[k].files == Select(files, a, k))
  }

  /**
   * Every input position is sent to an existing bucket, and bucket k holds
   * exactly the headers sent to it, in input order: each header lands in one
   * bucket, at the first bucket that passed the test when it was placed.
   */
  lemma {:induction false} PackMembership(files: seq<FileHeader>, limit: u64, format: Formatter, template: string)
    ensures Collects(Pack(files, limit, format, template), files, Assignment(files, limit, format, template))
  {
    if files != [] {
      var n := |files| - 1;
      var prefix := files[..n];
      var f := files[n];
      var bs0 := Pack(prefix, limit, format, template);
      var a0 := Assignment(prefix, limit, format, template);
      var x := FirstFit(bs0, EntryCost(f), limit);
      var bs := Pack(files, limit, format, template);
      var a := Assignment(files, limit, format, template);
      PackMembership(prefix, limit, format, template);
      assert a == a0 + [x];
      assert a[..n] == a0;
      var name := format(template, |bs0| + 1);
      assert bs == Place(bs0, f, limit, name);
      if x < |bs0| {
        assert bs == bs0[x := Grow(bs0[x], f)];
      } else {
        assert bs == bs0 + [Open(name, f)];
      }
      forall i | 0 <= i < |files| ensures a[i] < |bs| {
        if i < n {
          assert a[i] == a0[i];
        }
      }
      forall k | 0 <= k < |bs| ensures bs[k].files == Select(files, a, k) {
        assert Select(files, a, k) == Select(prefix, a0, k) + (if x == k then [f] else []);
        if k == |bs0| {
          SelectNone(prefix, a0, k);
        }
      }
    }
  }

  /** The first-fit choice: every earlier bucket failed the test at the time, the chosen one (if it existed) passed. */
  lemma AssignmentIsFirstFit(files: seq<FileHeader>, limit: u64, format: Formatter, template: string, i: nat)
    requires i < |files|
    ensures var bs := Pack(files[..i], limit, format, template);
            var k := Assignment(files, limit, format, template)[i];
      && k <= |bs|
      && (k < |bs| ==> Fits(bs[k], EntryCost(files[i]), limit))
      && (forall j :: 0 <= j < k ==> !Fits(bs[j], EntryCost(files[i]), limit))
  {
    AssignmentAt(files, limit, format, template, i);
    FirstFitIsFirst(Pack(files[..i], limit, format, template), EntryCost(files[i]), limit);
  }

  /** The bytes a part holding `fs` occupies: every entry's full cost plus the end record. */
  function ArchiveBytes(fs: seq<FileHeader>): nat
    decreases |fs|
  {
    if fs == [] then EndOfCentralDirectorySize else ArchiveBytes(fs[..|fs| - 1]) + RawCost(fs[|fs| - 1])
  }

  /**
   * Because a new bucket starts at the entry's compressed size only, a part can
   * exceed the split size: with a split size of 300 and two unnamed entries of
   * 100 and 50 compressed bytes, both go into one bucket of size 242, but the
   * part needs 356 bytes.
   */
  lemma PartCanExceedSplitSize(format: Formatter, template: string)
    ensures var f1 := FileHeader([], [], [], 100);
            var f2 := FileHeader([], [], [], 50);
            var bs := Pack([f1, f2], Limit(300), format, template);
      && |bs| == 1 && bs[0].files == [f1, f2] && bs[0].size == 242
      && ArchiveBytes(bs[0].files) == 356 > 300
  {
    var f1 := FileHeader([], [], [], 100);
    var f2 := FileHeader([], [], [], 50);
    var limit := Limit(300);
    assert limit == 278;
    var bs1 := Pack([f1], limit, format, template);
    assert [f1][..0] == [];
    assert Pack([], limit, format, template) == [];
    assert FirstFit([], EntryCost(f1), limit) == 0;
    assert bs1 == [Open(format(template, 1), f1)];
    CostFormula(f2);
    assert EntryCost(f2) == 142;
    assert FirstFit(bs1, EntryCost(f2), limit) == 0;
    assert [f1, f2][..1] == [f1];
    assert [f1, f2][..1][..0] == [];
    assert ArchiveBytes([f1]) == 22 + 192;
  }

  /**
   * Below 22 bytes the bound `splitSize - 22` wraps around to `2^64 - 22 + splitSize`.
   * A bucket and an entry then fail the test only when `size + cost`, taken
   * modulo 2^64, lands in the top `22 - splitSize` values of the uint64 range;
   * in particular every sum that stays below that bound passes.
   */
  lemma WrappedLimitAcceptsNearlyAll(splitSize: u64, b: BucketView, cost: u64)
    requires splitSize < EndOfCentralDirectorySize
    ensures Limit(splitSize) == Modulus - 22 + splitSize
    ensures !Fits(b, cost, Limit(splitSize)) <==> (b.size + cost) % Modulus > Modulus - 22 + splitSize
    ensures b.size + cost <= Modulus - 22 + splitSize ==> Fits(b, cost, Limit(splitSize))
  {
    WrapIsModular(b.size, cost);
  }

  /**
   * The wrapped bound at work: with a split size of 10, two unnamed entries of
   * 10 compressed bytes each (which pass the check in `main`) share one bucket.
   */
  lemma WrappedLimitExample(format: Formatter, template: string)
    ensures Limit(10) == Modulus - 12
    ensures var f := FileHeader([], [], [], 10);
            var bs := Pack([f, f], Limit(10), format, template);
      |bs| == 1 && bs[0].files == [f, f]
  {
    var f := FileHeader([], [], [], 10);
    var limit := Limit(10);
    var bs1 := Pack([f], limit, format, template);
    assert [f][..0] == [];
    assert Pack([], limit, format, template) == [];
    assert FirstFit([], EntryCost(f), limit) == 0;
    assert bs1 == [Open(format(template, 1), f)];
    CostFormula(f);
    assert EntryCost(f) == 102;
    assert FirstFit(bs1, EntryCost(f), limit) == 0;
    assert [f, f][..1] == [f];
  }
}
