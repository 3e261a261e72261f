/** String helpers the note handlers rely on: JavaScript's `String.prototype.trim`,
    `toLowerCase` and `includes`, written out over `seq<char>`. */
module Text {

  /** ECMAScript WhiteSpace and LineTerminator code points: exactly what `trim` removes. */
  predicate IsWhitespace(c: char) {
    || c == ' ' || c == '\t' || c == '\n' || c == '\r'
    || c == '\U{000B}' || c == '\U{000C}' || c == '\U{00A0}' || c == '\U{1680}'
    || ('\U{2000}' <= c <= '\U{200A}')
    || c == '\U{2028}' || c == '\U{2029}' || c == '\U{202F}' || c == '\U{205F}'
    || c == '\U{3000}' || c == '\U{FEFF}'
  }

  ghost predicate AllWhitespace(s: string) {
    forall k :: 0 <= k < |s| ==> IsWhitespace(s[k])
  }

  /** A string `trim` leaves alone: empty, or neither end is whitespace. */
  predicate Trimmed(s: string) {
    s == [] || (!IsWhitespace(s[0]) && !IsWhitespace(s[|s| - 1]))
  }

  /** The number of whitespace characters `s` starts with. */
  function LeadingSpace(s: string): (n: nat)
    ensures n <= |s|
    ensures forall k :: 0 <= k < n ==> IsWhitespace(s[k])
    ensures n < |s| ==> !IsWhitespace(s[n])
    decreases |s|
  {
    if s != [] && IsWhitespace(s[0]) then 1 + LeadingSpace(s[1..]) else 0
  }

  /** The number of whitespace characters `s` ends with. */
  function TrailingSpace(s: string): (n: nat)
    ensures n <= |s|
    ensures forall k :: |s| - n <= k < |s| ==> IsWhitespace(s[k])
    ensures n < |s| ==> !IsWhitespace(s[|s| - 1 - n])
    decreases |s|
  {
    if s != [] && IsWhitespace(s[|s| - 1]) then 1 + TrailingSpace(s[..|s| - 1]) else 0
  }

  /** `s.trim()`: the infix of `s` that starts after its leading whitespace and
      has no whitespace at either end. */
  function Trim(s: string): (r: string)
    ensures LeadingSpace(s) + |r| <= |s|
    ensures r == s[LeadingSpace(s)..LeadingSpace(s) + |r|]
    ensures forall k :: LeadingSpace(s) + |r| <= k < |s| ==> IsWhitespace(s[k])
    ensures Trimmed(r)
  {
    var n := LeadingSpace(s);
    var a := s[n..];
    var r := a[..|a| - TrailingSpace(a)];
    assert forall k :: n + |r| <= k < |s| ==> s[k] == a[k - n];
    r
  }

  /** The handlers' rejection test: the input trims to nothing. */
  predicate Blank(s: string) {
    Trim(s) == []
  }

  /** The blank test the handlers perform (`x.trim() === ''`) holds exactly for
      strings made only of whitespace. */
  lemma TrimEmptyIffAllWhitespace(s: string)
    ensures Trim(s) == [] <==> AllWhitespace(s)
  {
    var n := LeadingSpace(s);
    if Trim(s) == [] {
      var a := s[n..];
      assert TrailingSpace(a) == |a|;
      assert |a| == 0;
    }
    if AllWhitespace(s) {
      assert n == |s|;
    }
  }

  /** Trimming a string with no whitespace at either end changes nothing. */
  lemma TrimOfTrimmed(s: string)
    requires Trimmed(s)
    ensures Trim(s) == s
  {
    assert LeadingSpace(s) == 0;
    assert s[0..] == s;
  }

  /** `trim` is idempotent. */
  lemma TrimIdempotent(s: string)
    ensures Trim(Trim(s)) == Trim(s)
  {
    TrimOfTrimmed(Trim(s));
  }

  /** `toLowerCase` on one character (ASCII letters only, see README). */
  function LowerChar(c: char): char {
    if 'A' <= c <= 'Z' then (c as int + 32) as char else c
  }

  function Lower(s: string): (r: string)
    ensures |r| == |s|
  {
    seq(|s|, k requires 0 <= k < |s| => LowerChar(s[k]))
  }

  /** `k` occurs in `s` starting at position `i`. */
  ghost predicate OccursAt(s: string, k: string, i: int) {
    0 <= i && i + |k| <= |s| && s[i..i + |k|] == k
  }

  /** `s.includes(k)`: `k` is a prefix of `s` or of one of its suffixes. */
  function Includes(s: string, k: string): bool
    decreases |s|
  {
    k <= s || (s != [] && Includes(s[1..], k))
  }

  /** `Includes` agrees with the positional definition of a substring, in both directions. */
  lemma {:induction false} IncludesIffOccurs(s: string, k: string)
    ensures Includes(s, k) <==> exists i :: OccursAt(s, k, i)
    decreases |s|
  {
    if s == [] {
      if k == [] {
        assert OccursAt(s, k, 0);
      }
    } else {
      IncludesIffOccurs(s[1..], k);
      if k <= s {
        assert OccursAt(s, k, 0);
      }
      if Includes(s[1..], k) {
        var i :| OccursAt(s[1..], k, i);
        assert s[1..][i..i + |k|] == s[i + 1..i + 1 + |k|];
        assert OccursAt(s, k, i + 1);
      }
      if exists i :: OccursAt(s, k, i) {
        var i :| OccursAt(s, k, i);
        if i == 0 {
          assert s[..|k|] == k;
        } else {
          assert s[1..][i - 1..i - 1 + |k|] == s[i..i + |k|];
          assert OccursAt(s[1..], k, i - 1);
        }
      }
    }
  }

  /** Case-folding both sides keeps every occurrence: a keyword found in the text
      is still found once both are lower-cased. */
  lemma IncludesSurvivesLower(s: string, k: string)
    requires Includes(s, k)
    ensures Includes(Lower(s), Lower(k))
  {
    IncludesIffOccurs(s, k);
    var i :| OccursAt(s, k, i);
    assert Lower(s)[i..i + |k|] == Lower(k);
    assert OccursAt(Lower(s), Lower(k), i);
    IncludesIffOccurs(Lower(s), Lower(k));
  }
}
