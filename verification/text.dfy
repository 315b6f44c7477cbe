/** Whitespace and trimming, as JavaScript's String.prototype.trim sees them.
    The task text typed by the user is trimmed before it is validated and stored. */
module Text {

  /** The code points ECMAScript counts as WhiteSpace or LineTerminator:
      tab, line feed, vertical tab, form feed, carriage return, space,
      no-break space, the byte order mark, the line and paragraph separators,
      and the remaining space separators (category Zs). */
  predicate IsWhitespace(c: char) {
    || c == '\t' || c == '\n' || c == '\U{000B}' || c == '\U{000C}' || c == '\r'
    || c == ' ' || c == '\U{00A0}' || c == '\U{1680}'
    || ('\U{2000}' <= c <= '\U{200A}')
    || c == '\U{2028}' || c == '\U{2029}' || c == '\U{202F}' || c == '\U{205F}'
    || c == '\U{3000}' || c == '\U{FEFF}'
  }

  /** True iff every character of `s` is whitespace (in particular for "") */
  predicate AllWhitespace(s: string) {
    forall i :: 0 <= i < |s| ==> IsWhitespace(s[i])
  }

  /** Index of the first non-whitespace character, or |s| if there is none */
  function LeadingEnd(s: string): (k: nat)
    ensures k <= |s|
    ensures forall i :: 0 <= i < k ==> IsWhitespace(s[i])
    ensures k < |s| ==> !IsWhitespace(s[k])
  {
    if |s| == 0 || !IsWhitespace(s[0]) then 0 else 1 + LeadingEnd(s[1..])
  }

  /** Index just past the last non-whitespace character, or 0 if there is none */
  function TrailingStart(s: string): (k: nat)
    ensures k <= |s|
    ensures forall i :: k <= i < |s| ==> IsWhitespace(s[i])
    ensures 0 < k ==> !IsWhitespace(s[k - 1])
  {
    if |s| == 0 || !IsWhitespace(s[|s| - 1]) then |s| else TrailingStart(s[..|s| - 1])
  }

  /** `r` is what is left of `s` once the whitespace at both ends is cut off:
      a contiguous slice of `s`, everything outside it is whitespace, and it
      neither starts nor ends with whitespace. This is the reference
      definition that `Trim` is proved against. */
  ghost predicate TrimmedFrom(r: string, s: string) {
    exists a, b :: TrimSlice(r, s, a, b)
  }

  /** `r` is `s[a..b]`, with only whitespace outside and none at its own ends */
  ghost predicate TrimSlice(r: string, s: string, a: int, b: int) {
    && 0 <= a <= b <= |s|
    && r == s[a..b]
    && (forall i :: 0 <= i < a ==> IsWhitespace(s[i]))
    && (forall i :: b <= i < |s| ==> IsWhitespace(s[i]))
    && (r == [] || (!IsWhitespace(r[0]) && !IsWhitespace(r[|r| - 1])))
  }

  /** String.prototype.trim */
  function Trim(s: string): (r: string)
    ensures r == [] <==> AllWhitespace(s)
    ensures r != [] ==> !IsWhitespace(r[0]) && !IsWhitespace(r[|r| - 1])
    ensures TrimmedFrom(r, s)
  {
    var a := LeadingEnd(s);
    if a == |s| then
      assert TrimSlice([], s, 0, 0);
      []
    else
      var b := TrailingStart(s);
      assert !IsWhitespace(s[a]);
      assert s[a..b][0] == s[a] && s[a..b][b - a - 1] == s[b - 1];
      assert TrimSlice(s[a..b], s, a, b);
      s[a..b]
  }

  /** Any string trimmed from `s` is empty exactly when `s` is blank */
  lemma TrimmedFromEmpty(r: string, s: string)
    requires TrimmedFrom(r, s)
    ensures r == [] <==> AllWhitespace(s)
  {
    var a, b :| TrimSlice(r, s, a, b);
    if r != [] {
      assert s[a] == r[0];
    }
  }

  /** The reference definition pins down a single string: whatever satisfies
      it is exactly `Trim(s)`. */
  lemma TrimmedFromUnique(r1: string, r2: string, s: string)
    requires TrimmedFrom(r1, s) && TrimmedFrom(r2, s)
    ensures r1 == r2
  {
    TrimmedFromEmpty(r1, s);
    TrimmedFromEmpty(r2, s);
    if !AllWhitespace(s) {
      var a1, b1 :| TrimSlice(r1, s, a1, b1);
      var a2, b2 :| TrimSlice(r2, s, a2, b2);
      assert !IsWhitespace(s[a1]) && !IsWhitespace(s[a2]) by {
        assert s[a1] == r1[0] && s[a2] == r2[0];
      }
      assert !IsWhitespace(s[b1 - 1]) && !IsWhitespace(s[b2 - 1]) by {
        assert s[b1 - 1] == r1[|r1| - 1] && s[b2 - 1] == r2[|r2| - 1];
      }
      assert a1 == a2;
      assert b1 == b2;
    }
  }

  /** Trimming an already trimmed, non-blank string changes nothing */
  lemma TrimFixesTrimmed(s: string)
    requires s != [] && !IsWhitespace(s[0]) && !IsWhitespace(s[|s| - 1])
    ensures Trim(s) == s
  {
    assert LeadingEnd(s) == 0;
    assert TrailingStart(s) == |s|;
    assert s[0..|s|] == s;
  }

  /** Trim is idempotent */
  lemma TrimIdempotent(s: string)
    ensures Trim(Trim(s)) == Trim(s)
  {
    if Trim(s) != [] {
      TrimFixesTrimmed(Trim(s));
    }
  }
}
