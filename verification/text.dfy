/**
 * String helpers shared by the type-name fold (src/lib.rs:74-89) and the
 * documentation fold (src/lib.rs:92-105) of the attribute macro. Both build
 * their text with the same left fold: it starts from the empty string and
 * inserts the separator only once the accumulator is non-empty.
 */
module Text {

  /** The textbook join: `parts` with `sep` between consecutive elements. */
  function Join(sep: string, parts: seq<string>): string
  {
    if |parts| == 0 then ""
    else if |parts| == 1 then parts[0]
    else parts[0] + sep + Join(sep, parts[1..])
  }

  /** One step of the source's fold: `if acc.len() == 0 { x } else { acc + sep + x }`. */
  function FoldStep(sep: string, acc: string, part: string): string
  {
    if |acc| == 0 then part else acc + sep + part
  }

  /** The left fold of `FoldStep` over `parts`, starting from `acc`. */
  function FoldFrom(sep: string, acc: string, parts: seq<string>): string
    decreases |parts|
  {
    if |parts| == 0 then acc else FoldFrom(sep, FoldStep(sep, acc, parts[0]), parts[1..])
  }

  /** `parts` without its leading run of empty strings. */
  function DropLeadingEmpty(parts: seq<string>): (r: seq<string>)
    ensures |r| <= |parts| && r == parts[|parts| - |r|..]
    ensures forall i :: 0 <= i < |parts| - |r| ==> parts[i] == ""
    ensures |r| == 0 || r[0] != ""
  {
    if |parts| > 0 && parts[0] == "" then DropLeadingEmpty(parts[1..]) else parts
  }

  /** Once the accumulator is non-empty the fold is an ordinary join appended to it. */
  lemma {:induction false} FoldFromNonEmpty(sep: string, acc: string, parts: seq<string>)
    requires |acc| > 0
    ensures FoldFrom(sep, acc, parts) == if |parts| == 0 then acc else acc + sep + Join(sep, parts)
    decreases |parts|
  {
    if |parts| > 0 {
      var next := acc + sep + parts[0];
      assert FoldStep(sep, acc, parts[0]) == next;
      FoldFromNonEmpty(sep, next, parts[1..]);
      if |parts| > 1 {
        assert next + sep + Join(sep, parts[1..]) == acc + sep + (parts[0] + sep + Join(sep, parts[1..]));
      }
    }
  }

  /** The fold from the empty string joins the parts after dropping the leading empty ones. */
  lemma {:induction false} FoldIsJoin(sep: string, parts: seq<string>)
    ensures FoldFrom(sep, "", parts) == Join(sep, DropLeadingEmpty(parts))
    decreases |parts|
  {
    if |parts| > 0 {
      if parts[0] == "" {
        assert FoldStep(sep, "", parts[0]) == "";
        FoldIsJoin(sep, parts[1..]);
      } else {
        assert FoldStep(sep, "", parts[0]) == parts[0];
        FoldFromNonEmpty(sep, parts[0], parts[1..]);
      }
    }
  }

  /**
   * The fold as the source uses it. It agrees with `Join` except that empty
   * parts before the first non-empty one vanish together with their separators.
   */
  function FoldJoin(sep: string, parts: seq<string>): (r: string)
    ensures r == Join(sep, DropLeadingEmpty(parts))
    ensures (forall i :: 0 <= i < |parts| ==> parts[i] != "") ==> r == Join(sep, parts)
    ensures r == "" <==> forall i :: 0 <= i < |parts| ==> parts[i] == ""
  {
    FoldIsJoin(sep, parts);
    JoinEmptyIff(sep, DropLeadingEmpty(parts));
    FoldFrom(sep, "", parts)
  }

  /** A join whose first part is non-empty is non-empty. */
  lemma JoinEmptyIff(sep: string, parts: seq<string>)
    requires |parts| == 0 || parts[0] != ""
    ensures Join(sep, parts) == "" <==> |parts| == 0
  {
    if |parts| > 0 {
      JoinStartsWithFirst(sep, parts);
    }
  }

  /** A join starts with its first part, followed by the separator when more parts follow. */
  lemma JoinStartsWithFirst(sep: string, parts: seq<string>)
    requires |parts| > 0
    ensures |Join(sep, parts)| >= |parts[0]|
    ensures Join(sep, parts)[..|parts[0]|] == parts[0]
    ensures |parts| > 1 ==> Join(sep, parts)[|parts[0]|..|parts[0]| + |sep|] == sep
  {
  }

  /** Rust's `char::is_whitespace`: the Unicode White_Space property. */
  predicate IsWhitespace(c: char)
  {
    || c == ' '
    || ('\t' <= c <= '\r')
    || c == '\U{0085}' || c == '\U{00A0}' || c == '\U{1680}'
    || ('\U{2000}' <= c <= '\U{200A}')
    || c == '\U{2028}' || c == '\U{2029}' || c == '\U{202F}' || c == '\U{205F}'
    || c == '\U{3000}'
  }

  /** The number of whitespace characters `s` starts with. */
  function LeadingWhitespace(s: string): (n: nat)
    ensures n <= |s|
    ensures forall i :: 0 <= i < n ==> IsWhitespace(s[i])
    ensures n == |s| || !IsWhitespace(s[n])
  {
    if |s| > 0 && IsWhitespace(s[0]) then 1 + LeadingWhitespace(s[1..]) else 0
  }

  /** The number of whitespace characters `s` ends with. */
  function TrailingWhitespace(s: string): (n: nat)
    ensures n <= |s|
    ensures forall i :: |s| - n <= i < |s| ==> IsWhitespace(s[i])
    ensures n == |s| || !IsWhitespace(s[|s| - n - 1])
  {
    if |s| > 0 && IsWhitespace(s[|s| - 1]) then 1 + TrailingWhitespace(s[..|s| - 1]) else 0
  }

  /**
   * Rust's `str::trim`: the part of `s` between its leading and its trailing
   * whitespace, which starts and ends with a non-whitespace character.
   */
  function Trim(s: string): (r: string)
    ensures LeadingWhitespace(s) + |r| <= |s|
    ensures r == s[LeadingWhitespace(s)..LeadingWhitespace(s) + |r|]
    ensures forall i :: LeadingWhitespace(s) + |r| <= i < |s| ==> IsWhitespace(s[i])
    ensures |r| == 0 || (!IsWhitespace(r[0]) && !IsWhitespace(r[|r| - 1]))
  {
    var k := LeadingWhitespace(s);
    var a := s[k..];
    var t := TrailingWhitespace(a);
    assert forall i :: k + (|a| - t) <= i < |s| ==> s[i] == a[i - k];
    a[..|a| - t]
  }

  /**
   * `r` is `s` with its leading and trailing whitespace removed: an infix of
   * `s` that neither starts nor ends with whitespace, with only whitespace
   * before and after it.
   */
  predicate TrimmedFrom(r: string, s: string)
  {
    var k := LeadingWhitespace(s);
    && k + |r| <= |s| && r == s[k..k + |r|]
    && (forall i :: 0 <= i < k ==> IsWhitespace(s[i]))
    && (forall i :: k + |r| <= i < |s| ==> IsWhitespace(s[i]))
    && (|r| == 0 || (!IsWhitespace(r[0]) && !IsWhitespace(r[|r| - 1])))
  }

  /** `trim` removes exactly the surrounding whitespace. */
  lemma TrimIsTrimmedFrom(s: string)
    ensures TrimmedFrom(Trim(s), s)
  {
  }

  /** Trimming one leading blank off text that starts and ends with non-whitespace gives back the text. */
  lemma TrimLeadingBlank(s: string)
    requires |s| > 0 && !IsWhitespace(s[0]) && !IsWhitespace(s[|s| - 1])
    ensures Trim(" " + s) == s
  {
    var d := " " + s;
    assert d[1..] == s;
    assert LeadingWhitespace(d[1..]) == 0;
    assert LeadingWhitespace(d) == 1;
    assert TrailingWhitespace(s) == 0;
  }
}
