/**
 * `humanToNumber`: a size such as "10Mb" or "512 k" read as a byte count.
 * The leading decimal digits are the number; the rest, trimmed of white space
 * and lower-cased, selects a factor from `sizeTable`; an unknown suffix selects 0.
 */
module SizeString {
  import opened UInt64
  import opened Results

  // The byte-size constants `1 << (iota * 10)`. The sixth one is 1024^5 although
  // the source calls it "E".
  const Byte: u64 := 1
  const KByte: u64 := 1024
  const MByte: u64 := 1024 * 1024
  const GByte: u64 := 1024 * 1024 * 1024
  const TByte: u64 := 1024 * 1024 * 1024 * 1024
  const EByte: u64 := 1024 * 1024 * 1024 * 1024 * 1024

  /** `sizeTable`: the recognised suffixes, in lower case. */
  const SizeTable: map<string, u64> := map[
    "" := Byte, "b" := Byte,
    "k" := KByte, "kb" := KByte,
    "m" := MByte, "mb" := MByte,
    "g" := GByte, "gb" := GByte,
    "t" := TByte, "tb" := TByte,
    "e" := EByte, "eb" := EByte]

  /** The factor a one-letter unit stands for, and 0 for any other character. */
  function UnitFactor(c: char): u64
  {
    match c
    case 'b' => Byte
    case 'k' => KByte
    case 'm' => MByte
    case 'g' => GByte
    case 't' => TByte
    case 'e' => EByte
    case _ => 0
  }

  /**
   * `sizeTable[suffix]`, read off the shape of the key: the empty suffix, a unit
   * letter, or a unit letter other than 'b' followed by 'b'; any other suffix is
   * missing from the table and a Go map yields the zero value for it.
   */
  function Factor(suffix: string): u64
  {
    if suffix == [] then Byte
    else if |suffix| == 1 then UnitFactor(suffix[0])
    else if |suffix| == 2 && suffix[0] != 'b' && suffix[1] == 'b' then UnitFactor(suffix[0])
    else 0
  }

  /** `Factor` is the table lookup with 0 for a missing key, and every key of the table has a non-zero factor. */
  lemma FactorIsLookup(suffix: string)
    ensures suffix !in SizeTable ==> Factor(suffix) == 0
    ensures suffix in SizeTable ==> Factor(suffix) == SizeTable[suffix] && Factor(suffix) > 0
  {
    if |suffix| == 1 {
      assert suffix == [suffix[0]];
    } else if |suffix| == 2 {
      assert suffix == [suffix[0], suffix[1]];
    }
  }

  /** A decimal digit. */
  predicate IsDigit(c: char)
  {
    '0' <= c <= '9'
  }

  /** The value of one digit. */
  function DigitValue(c: char): nat
    requires IsDigit(c)
  {
    c as int - '0' as int
  }

  /** The length of the longest prefix of `s` made of digits. */
  function DigitPrefixLength(s: string): (k: nat)
    ensures k <= |s|
  {
    if s == [] || !IsDigit(s[0]) then 0 else 1 + DigitPrefixLength(s[1..])
  }

  /** The split point: every character before it is a digit, the one at it (if any) is not. */
  predicate IsSplitPoint(s: string, k: nat)
  {
    k <= |s| && (forall i :: 0 <= i < k ==> IsDigit(s[i])) && (k < |s| ==> !IsDigit(s[k]))
  }

  /** `DigitPrefixLength` is a split point, and the only one: the digit prefix is maximal. */
  lemma {:induction false} DigitPrefixUnique(s: string, k: nat)
    ensures IsSplitPoint(s, DigitPrefixLength(s))
    ensures IsSplitPoint(s, k) ==> k == DigitPrefixLength(s)
    decreases |s|
  {
    if s != [] && IsDigit(s[0]) {
      DigitPrefixUnique(s[1..], if k == 0 then 0 else k - 1);
      var d := DigitPrefixLength(s[1..]);
      forall i | 0 <= i < d + 1 ensures IsDigit(s[i]) {
        if i > 0 {
          assert s[i] == s[1..][i - 1];
        }
      }
      if IsSplitPoint(s, k) {
        assert k > 0;
        assert IsSplitPoint(s[1..], k - 1) by {
          forall i | 0 <= i < k - 1 ensures IsDigit(s[1..][i]) {
            assert s[1..][i] == s[i + 1];
          }
        }
      }
    }
  }

  /** `unicode.IsSpace`: the characters with the Unicode White_Space property. */
  predicate IsSpace(c: char)
  {
    || '\t' <= c <= '\r' || c == ' ' || c == '\U{85}' || c == '\U{A0}' || c == '\U{1680}'
    || '\U{2000}' <= c <= '\U{200A}' || c == '\U{2028}' || c == '\U{2029}' || c == '\U{202F}'
    || c == '\U{205F}' || c == '\U{3000}'
  }

  /** `s` with its leading white space removed: a suffix of `s` that does not start with white space. */
  function TrimStart(s: string): (r: string)
    ensures |r| <= |s|
  {
    if s != [] && IsSpace(s[0]) then TrimStart(s[1..]) else s
  }

  lemma {:induction false} TrimStartCuts(s: string)
    ensures var r := TrimStart(s);
      && r == s[|s| - |r|..]
      && (forall i :: 0 <= i < |s| - |r| ==> IsSpace(s[i]))
      && (r != [] ==> !IsSpace(r[0]))
    decreases |s|
  {
    if s != [] && IsSpace(s[0]) {
      TrimStartCuts(s[1..]);
      var r := TrimStart(s);
      forall i | 0 < i < |s| - |r| ensures IsSpace(s[i]) {
        assert s[i] == s[1..][i - 1];
      }
      assert s[1..][|s| - 1 - |r|..] == s[|s| - |r|..];
    }
  }

  /** `s` with its trailing white space removed: a prefix of `s` that does not end with white space. */
  function TrimEnd(s: string): (r: string)
    ensures |r| <= |s|
  {
    if s != [] && IsSpace(s[|s| - 1]) then TrimEnd(s[..|s| - 1]) else s
  }

  lemma {:induction false} TrimEndCuts(s: string)
    ensures var r := TrimEnd(s);
      && r == s[..|r|]
      && (forall i :: |r| <= i < |s| ==> IsSpace(s[i]))
      && (r != [] ==> !IsSpace(r[|r| - 1]))
    decreases |s|
  {
    if s != [] && IsSpace(s[|s| - 1]) {
      var n := |s| - 1;
      TrimEndCuts(s[..n]);
      var r := TrimEnd(s);
      forall i | |r| <= i < n ensures IsSpace(s[i]) {
        assert s[i] == s[..n][i];
      }
      assert s[..n][..|r|] == s[..|r|];
    }
  }

  /**
   * `strings.TrimSpace`: the part of `s` between its leading and its trailing
   * white space; everything cut off is white space, and the result neither
   * starts nor ends with white space.
   */
  function TrimSpace(s: string): (r: string)
  {
    TrimEnd(TrimStart(s))
  }

  lemma TrimSpaceCuts(s: string)
    ensures var r := TrimSpace(s);
      exists i, j :: 0 <= i <= j <= |s| && r == s[i..j]
        && (forall p :: 0 <= p < i ==> IsSpace(s[p]))
        && (forall p :: j <= p < |s| ==> IsSpace(s[p]))
        && (r != [] ==> !IsSpace(r[0]) && !IsSpace(r[|r| - 1]))
  {
    var t := TrimStart(s);
    var r := TrimEnd(t);
    TrimStartCuts(s);
    TrimEndCuts(t);
    var i := |s| - |t|;
    var j := i + |r|;
    assert r == s[i..j];
    forall p | j <= p < |s| ensures IsSpace(s[p]) {
      assert s[p] == t[p - i];
    }
  }

  /** `unicode.ToLower` on the letters that can reach a key of `SizeTable`: A to Z, and the Kelvin sign, whose lower case is 'k'. */
  function Lower(c: char): char
  {
    if 'A' <= c <= 'Z' then (c as int - 'A' as int + 'a' as int) as char
    else if c == '\U{212A}' then 'k'
    else c
  }

  /** `strings.ToLower`, character by character. */
  function ToLower(s: string): string
  {
    seq(|s|, i requires 0 <= i < |s| => Lower(s[i]))
  }

  /** The number a string of digits denotes, read most significant digit first. */
  function DecimalValue(ds: string): nat
    requires forall i :: 0 <= i < |ds| ==> IsDigit(ds[i])
    decreases |ds|
  {
    if ds == [] then 0 else DecimalValue(ds[..|ds| - 1]) * 10 + DigitValue(ds[|ds| - 1])
  }

  /** Every character of `ds` is a digit. */
  predicate AllDigits(ds: string)
  {
    forall i :: 0 <= i < |ds| ==> IsDigit(ds[i])
  }

  /**
   * `strconv.ParseUint(ds, 10, 64)`: an error for the empty string, for a
   * character other than a digit and for a value that does not fit in 64 bits.
   */
  function ParseUint(ds: string): (r: Option<u64>)
  {
    if ds == [] || !AllDigits(ds) || DecimalValue(ds) >= Modulus then None else Some(DecimalValue(ds))
  }

  /** What `humanToNumber` returns for `s`. */
  function ParseSize(s: string): u64
  {
    var k := DigitPrefixLength(s);
    match ParseUint(s[..k])
    case None => 0
    case Some(number) => Mul64(number, Factor(ToLower(TrimSpace(s[k..]))))
  }

  /**
   * `humanToNumber`: count the leading digits, parse them, look the trimmed,
   * lower-cased rest up in `SizeTable` and multiply in uint64.
   */
  method HumanToNumber(s: string) returns (r: u64)
    ensures r == ParseSize(s)
  {
    var splitPoint := 0;
    while splitPoint < |s| && IsDigit(s[splitPoint])
      invariant splitPoint <= |s|
      invariant forall i :: 0 <= i < splitPoint ==> IsDigit(s[i])
    {
      splitPoint := splitPoint + 1;
    }
    assert IsSplitPoint(s, splitPoint);
    DigitPrefixUnique(s, splitPoint);
    var numberString := s[..splitPoint];
    var parsed := ParseUint(numberString);
    if parsed.None? {
      return 0;
    }
    var number := parsed.value;
    var suffix := ToLower(TrimSpace(s[splitPoint..]));
    var factor := Factor(suffix);
    number := Mul64(number, factor);
    return number;
  }

  /**
   * The whole behaviour, for the split of `s` into its maximal digit prefix and
   * the rest: 0 when the prefix is empty or at least 2^64, and otherwise the
   * number times the suffix's factor modulo 2^64.
   */
  lemma ParseSizeSplit(s: string, k: nat)
    requires IsSplitPoint(s, k)
    ensures k == 0 ==> ParseSize(s) == 0
    ensures DecimalValue(s[..k]) >= Modulus ==> ParseSize(s) == 0
    ensures 0 < k && DecimalValue(s[..k]) < Modulus
            ==> ParseSize(s) == Mul64(DecimalValue(s[..k]), Factor(ToLower(TrimSpace(s[k..]))))
  {
    DigitPrefixUnique(s, k);
  }

  /** An unknown suffix gives 0, whatever the number. */
  lemma UnknownSuffixGivesZero(s: string, k: nat)
    requires IsSplitPoint(s, k)
    requires ToLower(TrimSpace(s[k..])) !in SizeTable
    ensures ParseSize(s) == 0
  {
    DigitPrefixUnique(s, k);
    var suffix := ToLower(TrimSpace(s[k..]));
    FactorIsLookup(suffix);
    if 0 < k && DecimalValue(s[..k]) < Modulus {
      Mul64NoOverflow(DecimalValue(s[..k]), 0);
    }
  }

  /** Leading white space is not skipped: the digits must come first. */
  lemma LeadingSpaceGivesZero(s: string)
    requires s != [] && IsSpace(s[0])
    ensures ParseSize(s) == 0
  {
  }

  /** Without overflow the result is the plain product of the number and the factor. */
  lemma ParseSizeExact(s: string, k: nat)
    requires IsSplitPoint(s, k) && 0 < k && DecimalValue(s[..k]) < Modulus
    requires DecimalValue(s[..k]) * Factor(ToLower(TrimSpace(s[k..]))) < Modulus
    ensures ParseSize(s) == DecimalValue(s[..k]) * Factor(ToLower(TrimSpace(s[k..])))
  {
    DigitPrefixUnique(s, k);
    Mul64NoOverflow(DecimalValue(s[..k]), Factor(ToLower(TrimSpace(s[k..]))));
  }

  /** Reading off a concrete value: the number before split point `k` and the lower-cased, trimmed rest. */
  lemma ParseSizeOf(s: string, k: nat, number: u64, suffix: string)
    requires IsSplitPoint(s, k) && 0 < k
    requires DecimalValue(s[..k]) == number && ToLower(TrimSpace(s[k..])) == suffix
    ensures ParseSize(s) == Mul64(number, Factor(suffix))
  {
    DigitPrefixUnique(s, k);
  }

  lemma ExampleTenMegabytes()
    ensures ParseSize("10Mb") == 10 * MByte
  {
    var s := "10Mb";
    assert IsSplitPoint(s, 2);
    assert DecimalValue(s[..2]) == 10 by {
      assert s[..2] == "10" && "10"[..1] == "1" && "1"[..0] == "";
    }
    assert ToLower(TrimSpace(s[2..])) == "mb" by {
      assert s[2..] == "Mb";
    }
    ParseSizeOf(s, 2, 10, "mb");
    Mul64NoOverflow(10, Factor("mb"));
  }

  lemma ExampleTenKilobytes()
    ensures ParseSize("10 kb") == 10 * KByte
  {
    var s := "10 kb";
    assert IsSplitPoint(s, 2);
    assert DecimalValue(s[..2]) == 10 by {
      assert s[..2] == "10" && "10"[..1] == "1" && "1"[..0] == "";
    }
    assert ToLower(TrimSpace(s[2..])) == "kb" by {
      assert s[2..] == " kb";
      assert TrimStart(" kb") == "kb" by {
        assert " kb"[1..] == "kb";
      }
    }
    ParseSizeOf(s, 2, 10, "kb");
    Mul64NoOverflow(10, Factor("kb"));
  }

  lemma ExampleBareNumber()
    ensures ParseSize("10") == 10
  {
    var s := "10";
    assert IsSplitPoint(s, 2);
    assert DecimalValue(s[..2]) == 10 by {
      assert s[..2] == "10" && "10"[..1] == "1" && "1"[..0] == "";
    }
    assert ToLower(TrimSpace(s[2..])) == "" by {
      assert s[2..] == "";
    }
    ParseSizeOf(s, 2, 10, "");
    Mul64NoOverflow(10, Factor(""));
  }

  /** The Kelvin sign lower-cases to 'k', so it selects the kilobyte factor. */
  lemma ExampleKelvinSign()
    ensures ParseSize("3\U{212A}b") == 3 * KByte
  {
    var s := "3\U{212A}b";
    assert IsSplitPoint(s, 1);
    assert DecimalValue(s[..1]) == 3 by {
      assert s[..1] == "3" && "3"[..0] == "";
    }
    assert ToLower(TrimSpace(s[1..])) == "kb" by {
      assert s[1..] == "\U{212A}b";
    }
    ParseSizeOf(s, 1, 3, "kb");
    Mul64NoOverflow(3, Factor("kb"));
  }

  /** No digits, or an unknown suffix, gives 0. */
  lemma ExampleEmptyAndUnknown()
    ensures ParseSize("") == 0
    ensures ParseSize("Mb") == 0
    ensures ParseSize("10x") == 0
  {
    var s := "10x";
    assert IsSplitPoint(s, 2);
    DigitPrefixUnique(s, 2);
    assert ToLower(TrimSpace(s[2..])) == "x" by {
      assert s[2..] == "x";
    }
    UnknownSuffixGivesZero(s, 2);
  }

  /** The product wraps around in uint64: 16385 times 1024^5 is 2^64 + 1024^5. */
  lemma ExampleWrapAround()
    ensures ParseSize("16385e") == EByte
  {
    var s := "16385e";
    assert IsSplitPoint(s, 5);
    assert DecimalValue(s[..5]) == 16385 by {
      assert s[..5] == "16385" && "16385"[..4] == "1638" && "1638"[..3] == "163";
      assert "163"[..2] == "16" && "16"[..1] == "1" && "1"[..0] == "";
    }
    assert ToLower(TrimSpace(s[5..])) == "e" by {
      assert s[5..] == "e";
    }
    ParseSizeOf(s, 5, 16385, "e");
    assert 16385 * EByte == Modulus + EByte;
  }
}
