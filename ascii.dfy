/**
 * ASCII case-insensitive string comparison, as Rust's `eq_ignore_ascii_case`:
 * equal lengths, and equal characters once 'A'..'Z' are mapped to 'a'..'z'.
 * Every other character (including non-ASCII ones) must match exactly.
 */
module Ascii {

  function ToAsciiLowercase(c: char): (r: char)
    ensures 'A' <= c <= 'Z' ==> 'a' <= r <= 'z' && r as int - c as int == 'a' as int - 'A' as int
    ensures !('A' <= c <= 'Z') ==> r == c
  {
    if 'A' <= c <= 'Z' then (c as int - 'A' as int + 'a' as int) as char else c
  }

  predicate EqIgnoreAsciiCase(a: string, b: string) {
    |a| == |b| && forall i :: 0 <= i < |a| ==> ToAsciiLowercase(a[i]) == ToAsciiLowercase(b[i])
  }

  /** The whole string mapped by ToAsciiLowercase, defined independently of the comparison. */
  function AsciiLowercase(s: string): (r: string)
    ensures |r| == |s|
    ensures forall i :: 0 <= i < |s| ==> r[i] == ToAsciiLowercase(s[i])
    decreases |s|
  {
    if s == [] then [] else [ToAsciiLowercase(s[0])] + AsciiLowercase(s[1..])
  }

  /** The comparison agrees with comparing the lowercased strings, in both directions. */
  lemma EqIgnoreAsciiCaseIffSameLowercase(a: string, b: string)
    ensures EqIgnoreAsciiCase(a, b) <==> AsciiLowercase(a) == AsciiLowercase(b)
  {
    if AsciiLowercase(a) == AsciiLowercase(b) {
      assert |a| == |b|;
      forall i | 0 <= i < |a| ensures ToAsciiLowercase(a[i]) == ToAsciiLowercase(b[i]) {
        assert AsciiLowercase(a)[i] == AsciiLowercase(b)[i];
      }
    }
  }

  /** The comparison is an equivalence relation. */
  lemma EqIgnoreAsciiCaseIsEquivalence(a: string, b: string, c: string)
    ensures EqIgnoreAsciiCase(a, a)
    ensures EqIgnoreAsciiCase(a, b) ==> EqIgnoreAsciiCase(b, a)
    ensures EqIgnoreAsciiCase(a, b) && EqIgnoreAsciiCase(b, c) ==> EqIgnoreAsciiCase(a, c)
  {
    EqIgnoreAsciiCaseIffSameLowercase(a, a);
    EqIgnoreAsciiCaseIffSameLowercase(a, b);
    EqIgnoreAsciiCaseIffSameLowercase(b, a);
    EqIgnoreAsciiCaseIffSameLowercase(b, c);
    EqIgnoreAsciiCaseIffSameLowercase(a, c);
  }

  /** A lower-case address matches the default upper-case target, a letter-changed one does not. */
  lemma AddressCaseExamples()
    ensures EqIgnoreAsciiCase("b8:59:ce:33:0f:93", "B8:59:CE:33:0F:93")
    ensures !EqIgnoreAsciiCase("B8:59:CE:33:0F:94", "B8:59:CE:33:0F:93")
    ensures !EqIgnoreAsciiCase("B8:59:CE:33:0F:9", "B8:59:CE:33:0F:93")
  {
    var x := "B8:59:CE:33:0F:94";
    assert ToAsciiLowercase(x[16]) != ToAsciiLowercase("B8:59:CE:33:0F:93"[16]);
  }
}
