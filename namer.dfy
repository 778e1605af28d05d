/**
 * `numberedFileNamer`: checks a printf-style template once, then hands out
 * the names `format(template, 1)`, `format(template, 2)`, ... one per call.
 */
module Namer {
  import opened Results

  /**
   * `fmt.Sprintf(template, n)` for one integer argument. Its behaviour is not
   * modelled: every operation that formats takes it as a parameter, so what is
   * proved holds for every formatting function.
   */
  type Formatter = (string, int) -> string

  /** `s[i..]` starts with `sub`. */
  predicate OccursAt(s: string, sub: string, i: nat)
  {
    i + |sub| <= |s| && s[i..i + |sub|] == sub
  }

  /** `strings.Contains(s, sub)`. */
  function Contains(s: string, sub: string): (r: bool)
    ensures r <==> exists i: nat :: OccursAt(s, sub, i)
    decreases |s|
  {
    if |sub| > |s| then
      assert forall i: nat :: !OccursAt(s, sub, i);
      false
    else if s[..|sub|] == sub then
      assert OccursAt(s, sub, 0);
      true
    else
      var r := Contains(s[1..], sub);
      ShiftOccurrence(s, sub);
      r
  }

  lemma ShiftOccurrence(s: string, sub: string)
    requires |s| > 0 && !OccursAt(s, sub, 0)
    ensures (exists i: nat :: OccursAt(s[1..], sub, i)) <==> (exists i: nat :: OccursAt(s, sub, i))
  {
    forall i: nat | OccursAt(s[1..], sub, i) ensures OccursAt(s, sub, i + 1) {
      assert s[1..][i..i + |sub|] == s[i + 1..i + 1 + |sub|];
    }
    forall i: nat | OccursAt(s, sub, i) ensures i > 0 && OccursAt(s[1..], sub, i - 1) {
      assert s[1..][i - 1..i - 1 + |sub|] == s[i..i + |sub|];
    }
  }

  /**
   * The template must change with its argument and must not make Sprintf
   * report a formatting error (Go writes such errors as "%!verb(...)").
   */
  predicate ValidTemplate(format: Formatter, template: string)
  {
    var a := format(template, 0);
    var b := format(template, 1);
    a != b && !Contains(a, "%!")
  }

  /** The closure returned by `numberedFileNamer`, with its captured counter `n`. */
  class FileNamer {
    const template: string
    const format: Formatter
    var n: int

    constructor (template: string, format: Formatter)
      ensures this.template == template && this.format == format
      ensures n == 1
    {
      this.template := template;
      this.format := format;
      n := 1;
    }

    /** One call of the closure: the name for the current counter, then the counter moves on by one. */
    method Next() returns (name: string)
      modifies this
      ensures name == format(template, old(n))
      ensures n == old(n) + 1
    {
      name := format(template, n);
      n := n + 1;
    }
  }

  /** Validates the template; on success the namer's first name will be `format(template, 1)`. */
  method NumberedFileNamer(template: string, format: Formatter) returns (r: Result<FileNamer>)
    ensures r.Failure? <==> !ValidTemplate(format, template)
    ensures r.Failure? ==> r.error == InvalidTemplate
    ensures r.Success? ==> fresh(r.value) && r.value.n == 1
    ensures r.Success? ==> r.value.template == template && r.value.format == format
  {
    var a := format(template, 0);
    var b := format(template, 1);
    if a == b || Contains(a, "%!") {
      return Failure(InvalidTemplate);
    }
    var namer := new FileNamer(template, format);
    return Success(namer);
  }
}
