/** The two Python string builtins that the upload validator relies on:
    `str.lower()` (restricted to ASCII letters) and `str.rsplit(sep, 1)`
    for a one-character separator. */
module PyStr {

  /** True for the 26 upper-case ASCII letters. */
  predicate IsAsciiUpper(c: char) {
    'A' <= c <= 'Z'
  }

  /** Lower-cases one character: upper-case ASCII letters map to their
      lower-case partner, every other character is left alone. */
  function LowerChar(c: char): (d: char)
    ensures !IsAsciiUpper(d)
    ensures IsAsciiUpper(c) ==> d as int == c as int + 32
    ensures !IsAsciiUpper(c) ==> d == c
  {
    if IsAsciiUpper(c) then (c as int - 'A' as int + 'a' as int) as char else c
  }

  /** `s.lower()`, character by character. */
  function Lower(s: string): (r: string)
    ensures |r| == |s|
    ensures forall i :: 0 <= i < |s| ==> r[i] == LowerChar(s[i])
    ensures forall i :: 0 <= i < |r| ==> !IsAsciiUpper(r[i])
  {
    seq(|s|, i requires 0 <= i < |s| => LowerChar(s[i]))
  }

  /** Lower-casing a lower-cased string changes nothing. */
  lemma LowerIdempotent(s: string)
    ensures Lower(Lower(s)) == Lower(s)
  {
  }

  /** Lower-casing distributes over concatenation. */
  lemma LowerConcat(a: string, b: string)
    ensures Lower(a + b) == Lower(a) + Lower(b)
  {
  }

  /** Lower-casing never creates nor removes a character that is not a letter. */
  lemma LowerKeepsNonLetter(s: string, c: char)
    requires !IsAsciiUpper(c) && !('a' <= c <= 'z')
    ensures c in Lower(s) <==> c in s
  {
  }

  /** `s.rsplit(sep, 1)`: one part (`s` itself) when `sep` does not occur,
      otherwise the text before the LAST `sep` and the text after it. */
  function RSplitOnce(s: string, sep: char): (parts: seq<string>)
    ensures |parts| == 1 || |parts| == 2
    ensures |parts| == 1 <==> sep !in s
    ensures |parts| == 1 ==> parts[0] == s
    ensures |parts| == 2 ==> s == parts[0] + [sep] + parts[1] && sep !in parts[1]
    decreases |s|
  {
    if |s| == 0 then [s]
    else
      var init, last := s[..|s| - 1], s[|s| - 1];
      assert s == init + [last];
      if last == sep then [init, []]
      else
        var p := RSplitOnce(init, sep);
        if |p| == 1 then [s]
        else
          assert s == p[0] + [sep] + (p[1] + [last]);
          [p[0], p[1] + [last]]
  }

  /** The split is determined by the position of the last separator: any
      decomposition `a + [sep] + b` with no separator in `b` is the one
      `RSplitOnce` returns. */
  lemma RSplitOnceUnique(s: string, sep: char, a: string, b: string)
    requires s == a + [sep] + b && sep !in b
    ensures RSplitOnce(s, sep) == [a, b]
  {
    var p := RSplitOnce(s, sep);
    assert s[|a|] == sep;
    assert |p| == 2;
    // The separator that ends p[0] is the last one in s, and so is the one that ends a.
    assert forall q :: |a| < q < |s| ==> s[q] == b[q - |a| - 1];
    assert s[|s| - 1 - |p[1]|] == sep;
    assert |p[1]| >= |b|;
    assert forall q :: |p[0]| < q < |s| ==> s[q] == p[1][q - |p[0]| - 1];
    assert |p[1]| <= |b|;
    assert p[1] == s[|s| - |b|..] == b;
    assert p[0] == s[..|a|] == a;
  }

  /** Splitting commutes with lower-casing when the separator is not a letter. */
  lemma RSplitOnceLower(s: string, sep: char)
    requires !IsAsciiUpper(sep) && !('a' <= sep <= 'z')
    ensures |RSplitOnce(Lower(s), sep)| == |RSplitOnce(s, sep)|
    ensures forall k :: 0 <= k < |RSplitOnce(s, sep)| ==>
              RSplitOnce(Lower(s), sep)[k] == Lower(RSplitOnce(s, sep)[k])
  {
    var p := RSplitOnce(s, sep);
    LowerKeepsNonLetter(s, sep);
    if |p| == 2 {
      LowerConcat(p[0] + [sep], p[1]);
      LowerConcat(p[0], [sep]);
      LowerKeepsNonLetter(p[1], sep);
      RSplitOnceUnique(Lower(s), sep, Lower(p[0]), Lower(p[1]));
    }
  }
}
