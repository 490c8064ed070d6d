/** The parts of `java.lang.String` and `Character` the entities rely on. */
module JavaStrings {
  import opened Wrappers

  /** `Character.isWhitespace`: space separators other than the no-break spaces, line and paragraph separators, and the control characters 9-13 and 28-31. */
  predicate IsWhitespace(c: char) {
    || c == ' ' || c == '\U{1680}'
    || ('\U{2000}' <= c <= '\U{2006}') || ('\U{2008}' <= c <= '\U{200A}')
    || c == '\U{205F}' || c == '\U{3000}' || c == '\U{2028}' || c == '\U{2029}'
    || ('\U{0009}' <= c <= '\U{000D}') || ('\U{001C}' <= c <= '\U{001F}')
  }

  /** `String.isBlank`: empty, or whitespace only. */
  predicate IsBlank(s: string) {
    forall i :: 0 <= i < |s| ==> IsWhitespace(s[i])
  }

  /** The constructors' description test: `null`, `isBlank()` or `isEmpty()`. */
  predicate MissingText(s: Option<string>) {
    s.None? || IsBlank(s.value) || |s.value| == 0
  }

  /**
   * `String.compareTo`: the difference of the first differing characters, or else the
   * difference of the lengths.
   */
  function CompareTo(a: string, b: string): int
    decreases |a|
  {
    if |a| == 0 || |b| == 0 then |a| - |b|
    else if a[0] != b[0] then a[0] as int - b[0] as int
    else CompareTo(a[1..], b[1..])
  }

  /** `compareTo` is zero exactly on equal strings. */
  lemma {:induction false} CompareToZero(a: string, b: string)
    ensures CompareTo(a, b) == 0 <==> a == b
    decreases |a|
  {
    if |a| > 0 && |b| > 0 && a[0] == b[0] {
      CompareToZero(a[1..], b[1..]);
      assert a == [a[0]] + a[1..] && b == [b[0]] + b[1..];
    }
  }

  /** Swapping the arguments negates the result. */
  lemma {:induction false} CompareToFlip(a: string, b: string)
    ensures CompareTo(b, a) == -CompareTo(a, b)
    decreases |a|
  {
    if |a| > 0 && |b| > 0 && a[0] == b[0] {
      CompareToFlip(a[1..], b[1..]);
    }
  }

  /** `compareTo(a, b) <= 0` is transitive. */
  lemma {:induction false} CompareToTransitive(a: string, b: string, c: string)
    requires CompareTo(a, b) <= 0 && CompareTo(b, c) <= 0
    ensures CompareTo(a, c) <= 0
    decreases |a|
  {
    if |a| > 0 && |b| > 0 && |c| > 0 && a[0] == b[0] && b[0] == c[0] {
      CompareToTransitive(a[1..], b[1..], c[1..]);
    }
  }

  /** A strict step followed by a non-strict one stays strict. */
  lemma CompareToStrict(a: string, b: string, c: string)
    requires CompareTo(a, b) < 0 && CompareTo(b, c) <= 0
    ensures CompareTo(a, c) < 0
  {
    CompareToTransitive(a, b, c);
    CompareToZero(a, c);
    CompareToFlip(b, a);
  }

  lemma CompareToStrictRight(a: string, b: string, c: string)
    requires CompareTo(a, b) <= 0 && CompareTo(b, c) < 0
    ensures CompareTo(a, c) < 0
  {
    CompareToTransitive(a, b, c);
    CompareToZero(a, c);
    CompareToFlip(c, b);
  }

  /**
   * A cascade of `compareTo` calls over parallel key lists: the first nonzero result, or
   * zero when every key compares equal.
   */
  function CompareCascade(a: seq<string>, b: seq<string>): int
    requires |a| == |b|
  {
    if |a| == 0 then 0
    else
      var c := CompareTo(a[0], b[0]);
      if c != 0 then c else CompareCascade(a[1..], b[1..])
  }

  /** The cascade is zero exactly on equal key lists. */
  lemma {:induction false} CascadeZero(a: seq<string>, b: seq<string>)
    requires |a| == |b|
    ensures CompareCascade(a, b) == 0 <==> a == b
  {
    if |a| > 0 {
      CompareToZero(a[0], b[0]);
      CascadeZero(a[1..], b[1..]);
      assert a == [a[0]] + a[1..] && b == [b[0]] + b[1..];
    }
  }

  /** Swapping the key lists negates the cascade. */
  lemma {:induction false} CascadeFlip(a: seq<string>, b: seq<string>)
    requires |a| == |b|
    ensures CompareCascade(b, a) == -CompareCascade(a, b)
  {
    if |a| > 0 {
      CompareToFlip(a[0], b[0]);
      CascadeFlip(a[1..], b[1..]);
    }
  }

  /** `cascade <= 0` is transitive. */
  lemma {:induction false} CascadeTransitive(a: seq<string>, b: seq<string>, c: seq<string>)
    requires |a| == |b| == |c|
    requires CompareCascade(a, b) <= 0 && CompareCascade(b, c) <= 0
    ensures CompareCascade(a, c) <= 0
  {
    if |a| > 0 {
      var ab, bc := CompareTo(a[0], b[0]), CompareTo(b[0], c[0]);
      CompareToZero(a[0], b[0]);
      CompareToZero(b[0], c[0]);
      if ab < 0 {
        CompareToStrict(a[0], b[0], c[0]);
      } else if bc < 0 {
        CompareToStrictRight(a[0], b[0], c[0]);
      } else {
        CascadeTransitive(a[1..], b[1..], c[1..]);
      }
    }
  }
}
