# zipsplit: a Dafny model of the split engine

`zipsplit` splits one ZIP archive into several smaller ones.
- It reads the archive's file headers and sorts them largest first by compressed size.
- It refuses to run when an entry can never fit.
- It packs the headers first-fit into *buckets*. Each bucket becomes one output archive, named from a printf-style template (`out-%03d.zip` by default).
- The maximum size of a part is given as a human-readable string such as `10Mb`.

This project models and proves the pure and in-place logic of that program:

- **The split engine `fit`** (`fit.dfy`).
  - `Fit.Fit` is an imperative method over `Bucket` objects. It has the source's nested loops, its `added` flag and its in-place updates of `size` and `files`.
  - It is proved equal to the pure specification `Fit.Pack`, which places the entries one by one in input order.
  - Arithmetic is `uint64` with wrap-around (`uint64.dfy`).
  - The per-entry cost is the source's left-to-right uint64 sum (`zip_header.dfy`). Its fixed record sizes are those of PKWARE's APPNOTE.TXT:
    - local file header, 30 bytes (section 4.3.7);
    - data descriptor, 16 bytes (section 4.3.9);
    - central directory header, 46 bytes (section 4.3.12);
    - end of central directory record, 22 bytes (section 4.3.16).
- **What the packing guarantees** (`packing_properties.dfy`):
  - The concatenated buckets are a permutation of the input.
  - Every entry lands in exactly one bucket, and within a bucket the entries keep input order.
  - Each entry goes to the lowest-index bucket that passes the size test, and no other bucket changes.
  - A new bucket is opened exactly when no bucket passes the test.
  - There are never more buckets than entries.
  - Bucket k (counting from 1) is named `Sprintf(template, k)`.
  - Every bucket's size is its first entry's compressed size plus the full cost of each later entry, in uint64. Once a bucket holds two entries or more, its size is within the bound.
- **The namer `numberedFileNamer`** (`namer.dfy`).
  - It is a class whose counter starts at 1 and rises by one per call.
  - The template is rejected when `Sprintf(template, 0)` equals `Sprintf(template, 1)`, or when `Sprintf(template, 0)` contains `%!`.
  - This check runs before any entry is examined.
  - `fmt.Sprintf` is a function parameter (`Namer.Formatter`), so every result holds for any formatting function.
- **The size parser `humanToNumber`** (`size_string.dfy`).
  - It takes the maximal leading digit prefix and parses it as a uint64; an empty or too large prefix gives 0.
  - The rest is trimmed of white space, lower-cased and looked up in `sizeTable`; a missing key gives 0.
  - The number is multiplied by that factor in uint64.
  - Examples are proved: `10Mb`, `10 kb`, `10`, an input whose unit is written with the Kelvin sign (`3Kb` → 3072), unknown suffixes, and an input whose product wraps.
- **The glue in `main`** (`pipeline.dfy`).
  - It sorts with `bySize.Less` / `bySize.Swap` into non-increasing order; the result is a permutation of the input.
  - It applies the "can never fit" test to the first, largest header, then calls `fit`.

Behaviour that the model keeps as written, with a lemma showing each:

- A new bucket starts at the entry's compressed size only, without the entry's header overhead, so a part can be larger than the split size. `PackingProperties.PartCanExceedSplitSize` shows a 356-byte part for a split size of 300.
- `splitSize - 22` wraps around to `2^64 - 22 + splitSize` when the split size is below 22. Every entry then passes the test unless `size + cost` lands, modulo 2^64, within `22 - splitSize` of 2^64, which no real archive reaches. `PackingProperties.WrappedLimitAcceptsNearlyAll` states this for every bucket and entry; `PackingProperties.WrappedLimitExample` shows two entries that share one bucket with a split size of 10.
- The "can never fit" test in `main` compares the compressed size with the split size. It ignores the header overhead and the 22-byte end record.
- For an archive with no entries, `main` reads `files[0]` to report it, which panics with an index out of range. `Pipeline.SplitArchive` returns `IndexPanic` in that case.
- The sixth byte constant is 1024^5, although the source names it `E` (exa would be 1024^6).

## Model

| member | source | states |
|---|---|---|
| `UInt64.WrapIsModular` | zipsplit.go:134-135 | uint64 `+` and `-` are addition and subtraction modulo 2^64, so `splitSize - 22` wraps below 22 |
| `UInt64.Sum64IsModular` | zipsplit.go:127-133 | a left-to-right uint64 sum of any number of terms equals the integer sum modulo 2^64 |
| `UInt64.Mul64NoOverflow` | zipsplit.go:208 | `number *= factor` is the plain product when that product fits in 64 bits |
| `ZipHeader.CostFormula` | zipsplit.go:127-133 | the cost of an entry is `2·len(Name) + 92 + len(Comment) + len(Extra) + CompressedSize64` modulo 2^64, exact when it fits; it depends on the entry alone |
| `Namer.Contains` | zipsplit.go:51 | `strings.Contains(s, sub)` holds exactly when `sub` occurs at some position of `s` |
| `Namer.FileNamer.constructor` | zipsplit.go:55 | the counter starts at 1 |
| `Namer.FileNamer.Next` | zipsplit.go:56-59 | a call returns the name for the current counter and raises the counter by exactly one |
| `Namer.NumberedFileNamer` | zipsplit.go:45-61 | fails with the template error exactly when `Sprintf(t, 0) == Sprintf(t, 1)` or `Sprintf(t, 0)` contains `%!`; otherwise gives a fresh namer at counter 1 for this template |
| `Fit.Bucket.constructor` | zipsplit.go:143-146 | a new bucket holds exactly the given name, size and headers |
| `Fit.FirstFitIsFirst` | zipsplit.go:121-139 | the chosen index is the lowest one whose bucket passes `size + cost <= splitSize - 22`; every earlier bucket fails |
| `Fit.PackStep` | zipsplit.go:118-147 | packing one more entry is one more placement, and the new bucket gets the next number |
| `Fit.AddToFirstFitting` | zipsplit.go:121-140 | the inner loop reports `added` exactly when some bucket passes the test; then only the first such bucket changes, growing by the cost and appending the entry; otherwise nothing changes |
| `Fit.OpenBucket` | zipsplit.go:142-147 | appends one fresh bucket named by the next namer call, holding only the entry, with size `CompressedSize64`; the earlier buckets and their contents are unchanged |
| `Fit.PlaceEntry` | zipsplit.go:118-148 | one outer iteration turns the buckets for the first i entries into those for the first i+1; the namer counter stays one above the bucket count |
| `Fit.Fit` | zipsplit.go:110-151 | fails with the template error exactly when the template is invalid, before looking at any entry; otherwise returns distinct fresh buckets whose values are `Pack` of the entries in input order |
| `PackingProperties.PlaceFirstFit` | zipsplit.go:121-147 | a new bucket is appended exactly when no bucket passes the test; otherwise the lowest-index passing bucket grows and no other bucket changes |
| `PackingProperties.PackCount` | zipsplit.go:118-150 | there are never more buckets than entries, and there are none exactly when there are no entries |
| `PackingProperties.GrowWellFormed` | zipsplit.go:134-136 | adding an entry that passes the test keeps the size equal to the first compressed size plus the later costs, and within the bound |
| `PackingProperties.PackBuckets` | zipsplit.go:134-146 | bucket k (0-based) is named `Sprintf(t, k+1)`; it holds at least one entry; its size is the first entry's compressed size plus the later entries' costs modulo 2^64, and at most `splitSize - 22` once it holds two entries or more |
| `PackingProperties.PackPermutation` | zipsplit.go:118-150 | the buckets' headers, concatenated, are a permutation of the input |
| `PackingProperties.PackMembership` | zipsplit.go:118-147 | every entry is sent to one existing bucket, and each bucket holds exactly the entries sent to it, in input order |
| `PackingProperties.AssignmentIsFirstFit` | zipsplit.go:121-139 | the bucket each entry is sent to passed the test at that moment, and every earlier bucket failed it |
| `PackingProperties.PartCanExceedSplitSize` | zipsplit.go:127-147 | with split size 300, entries of 100 and 50 compressed bytes share one bucket of size 242, while the part needs 356 bytes |
| `PackingProperties.WrappedLimitAcceptsNearlyAll` | zipsplit.go:134 | for a split size below 22 the bound is `2^64 - 22 + splitSize`; an entry fails against a bucket exactly when `size + cost` modulo 2^64 exceeds that bound, so every sum up to the bound passes |
| `PackingProperties.WrappedLimitExample` | zipsplit.go:134 | with split size 10 the bound wraps to 2^64 - 12, and two 10-byte entries share one bucket |
| `SizeString.FactorIsLookup` | zipsplit.go:163-176 | the factor is `sizeTable[suffix]` for the twelve keys, 0 for a missing key, and never 0 for a key |
| `SizeString.DigitPrefixUnique` | zipsplit.go:193-199 | the counted prefix is all digits and is followed by a non-digit or the end; it is the only split point with that property |
| `SizeString.TrimSpaceCuts` | zipsplit.go:206 | `TrimSpace` cuts only white space from both ends and leaves neither end on white space |
| `SizeString.HumanToNumber` | zipsplit.go:190-211 | the loop and the steps after it compute `ParseSize(s)` |
| `SizeString.ParseSizeSplit` | zipsplit.go:200-208 | an empty or too large digit prefix gives 0; otherwise the result is number × factor of the trimmed, lower-cased suffix, in uint64 |
| `SizeString.UnknownSuffixGivesZero` | zipsplit.go:206-208 | a suffix missing from the table gives 0 whatever the number |
| `SizeString.LeadingSpaceGivesZero` | zipsplit.go:194-203 | leading white space is not skipped, so it gives 0 |
| `SizeString.ParseSizeExact` | zipsplit.go:200-208 | without overflow the result is exactly number × factor |
| `SizeString.ExampleTenMegabytes` | zipsplit.go:163-176 | `"10Mb"` is 10·1024² |
| `SizeString.ExampleTenKilobytes` | zipsplit.go:190-211 | `"10 kb"` is 10240 |
| `SizeString.ExampleBareNumber` | zipsplit.go:190-211 | `"10"` is 10 |
| `SizeString.ExampleKelvinSign` | zipsplit.go:206-207 | a Kelvin sign lower-cases to `k`, so `"3Kb"` written with it is 3072 |
| `SizeString.ExampleEmptyAndUnknown` | zipsplit.go:200-208 | `""`, `"Mb"` and `"10x"` are 0 |
| `SizeString.ExampleWrapAround` | zipsplit.go:208 | `"16385e"` wraps to 1024^5 |
| `Pipeline.Swap` | zipsplit.go:35-37 | exchanges two headers in place and keeps the multiset of headers |
| `Pipeline.SortBySizeDescending` | zipsplit.go:245 | the headers end in non-increasing order of `CompressedSize64`, by `bySize.Less` reversed, as a permutation of the input |
| `Pipeline.FirstIsLargest` | zipsplit.go:247 | in sorted order, the first header exceeds a bound exactly when some header does |
| `Pipeline.SplitArchive` | zipsplit.go:245-259 | sorts; an empty list panics; the run stops with the first (largest) header exactly when some header's compressed size exceeds the split size; otherwise returns `fit`'s error or its distinct, fresh buckets for the sorted headers |

## Left out

- File and archive I/O (`getZipContents`, `makeZip`, `zip.OpenReader`, `os.Create`, `w.Copy`): the model starts from the list of headers and ends with the buckets.
- Flag parsing, the check that an input archive was named, printing, `log.Fatal` and `os.Exit` in `main`: these are process plumbing. The model's outcome values stand for the exits.
- `numberToHuman`: it uses `float64` division and `%.2f` formatting, and is only used in the "can never fit" message.
- The behaviour of `fmt.Sprintf`: it is a function parameter, so nothing is assumed about it. In particular, distinct bucket names are not proved, because they depend on the template.
- The unused `config` field of `Bucket`: `fit` never sets it.
- Object identity of headers: the model works on header values. Aliasing among `*zip.FileHeader` values is not modelled.
- `SizeString.IsDigit`, `SizeString.Lower`: the model recognises only the digits 0 to 9, and lower-cases only A to Z and the Kelvin sign. The factor lookup gives the same result as Go's Unicode functions for every input:
  - A non-ASCII digit in the prefix makes Go's byte slice at the rune count cut through a multi-byte character, and `ParseUint` fails. In the model that digit starts a suffix missing from the table. Both give 0.
  - No other character lower-cases to a letter of a table key.
  - White space follows Go's full `unicode.IsSpace` set.
- `Pipeline.SortBySizeDescending`: `sort.Sort` is not stable, and its exact permutation is not modelled. Only its contract is: non-increasing order and a permutation of the input.
- `Namer.FileNamer.Next`: the counter is an unbounded integer; Go's `int` would wrap after 2^63 - 1 calls.
