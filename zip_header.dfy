/** The part of a ZIP file header the splitter looks at, and the byte cost it charges per entry. */
module ZipHeader {
  import opened UInt64

  // Fixed record sizes of the ZIP format (PKWARE APPNOTE.TXT).
  /** Local file header without its variable fields (section 4.3.7). */
  const LocalFileHeaderSize: u64 := 30
  /** Data descriptor including its optional signature (section 4.3.9). */
  const DataDescriptorSize: u64 := 16
  /** Central directory file header without its variable fields (section 4.3.12). */
  const CentralDirectoryHeaderSize: u64 := 46
  /** End of central directory record without a comment (section 4.3.16). */
  const EndOfCentralDirectorySize: u64 := 22

  /** A Go byte string; its length is a non-negative `int`, so `uint64(len(s))` is exact. */
  type Bytes = s: seq<byte> | |s| < MaxLength

  /** The fields of `zip.FileHeader` that the splitter reads; names and comments are byte strings. */
  datatype FileHeader = FileHeader(
    name: Bytes,
    comment: Bytes,
    extra: Bytes,
    compressedSize64: u64)

  /** The cost as a mathematical integer: the entry's bytes in the local header, the data descriptor and the central directory. */
  function RawCost(f: FileHeader): nat
  {
    2 * |f.name| + LocalFileHeaderSize + DataDescriptorSize + CentralDirectoryHeaderSize
      + |f.comment| + |f.extra| + f.compressedSize64
  }

  /** The terms of `totalSize` in `fit`, in the order the source adds them. */
  function CostTerms(f: FileHeader): seq<u64>
  {
    [|f.name|, LocalFileHeaderSize, DataDescriptorSize, CentralDirectoryHeaderSize,
     |f.name|, |f.comment|, |f.extra|, f.compressedSize64]
  }

  /**
   * `totalSize` in `fit`, evaluated left to right in uint64 as the source writes it:
   * name, the three record sizes, the name again, comment, extra, then `+= CompressedSize64`.
   */
  function EntryCost(f: FileHeader): u64
  {
    Sum64(CostTerms(f))
  }

  /**
   * The cost formula: twice the name, 30 + 16 + 46 = 92 bytes of fixed records,
   * the comment, the extra field and the compressed data, all modulo 2^64; it is
   * exact whenever that sum fits in a uint64. It depends on the entry alone, so it
   * is the same for every bucket the entry is compared with.
   */
  lemma CostFormula(f: FileHeader)
    ensures EntryCost(f) == (2 * |f.name| + 92 + |f.comment| + |f.extra| + f.compressedSize64) % Modulus
    ensures RawCost(f) < Modulus ==> EntryCost(f) == RawCost(f)
  {
    var xs := CostTerms(f);
    Sum64IsModular(xs);
    var n := |f.name|;
    assert Sum(xs[..1]) == n by { assert xs[..1][..0] == []; }
    assert Sum(xs[..2]) == n + 30 by { assert xs[..2][..1] == xs[..1]; }
    assert Sum(xs[..3]) == n + 46 by { assert xs[..3][..2] == xs[..2]; }
    assert Sum(xs[..4]) == n + 92 by { assert xs[..4][..3] == xs[..3]; }
    assert Sum(xs[..5]) == 2 * n + 92 by { assert xs[..5][..4] == xs[..4]; }
    assert Sum(xs[..6]) == 2 * n + 92 + |f.comment| by { assert xs[..6][..5] == xs[..5]; }
    assert Sum(xs[..7]) == 2 * n + 92 + |f.comment| + |f.extra| by { assert xs[..7][..6] == xs[..6]; }
    assert Sum(xs) == RawCost(f);
  }
}
