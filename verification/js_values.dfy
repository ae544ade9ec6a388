/**
  The few JavaScript value semantics the Asteroid Explorer screen relies on:
  absent JSON fields, the truthiness that `||` and `if (x)` test, and
  `String.prototype.trim`.
 */
module JsValues {

  /** A JSON field that may be absent (`undefined` in JavaScript). */
  datatype Option<+T> = None | Some(value: T)

  /** `v || fallback` on a string field: an absent field and the empty string
      are both falsy, so both give the fallback. */
  function OrElse(v: Option<string>, fallback: string): (r: string)
    ensures v.Some? && v.value != "" ==> r == v.value
    ensures v.None? || v.value == "" ==> r == fallback
  {
    match v
    case Some(s) => if s != "" then s else fallback
    case None => fallback
  }

  /** Truthiness of a numeric JSON field: absent and `0` are falsy. */
  predicate NumberTruthy(v: Option<int>) {
    v.Some? && v.value != 0
  }

  /** The characters `trim` removes, by code point: ECMAScript WhiteSpace
      (tab, vertical tab, form feed, space, no-break space, the byte order
      mark and the Unicode space separators) and LineTerminator (line feed,
      carriage return, line and paragraph separators). */
  predicate IsJsSpace(c: char) {
    var n := c as int;
    || (0x9 <= n <= 0xD) || n == 0x20 || n == 0xA0 || n == 0x1680
    || (0x2000 <= n <= 0x200A) || n == 0x2028 || n == 0x2029
    || n == 0x202F || n == 0x205F || n == 0x3000 || n == 0xFEFF
  }

  /** Every character of `s` in positions `lo` up to `hi` is white space. */
  predicate SpaceBetween(s: string, lo: int, hi: int)
    requires 0 <= lo <= hi <= |s|
  {
    forall k :: lo <= k < hi ==> IsJsSpace(s[k])
  }

  predicate AllSpace(s: string) {
    SpaceBetween(s, 0, |s|)
  }

  /** How many white-space characters `s` starts with. */
  function LeadingSpace(s: string): (n: nat)
    ensures n <= |s| && SpaceBetween(s, 0, n)
    ensures n < |s| ==> !IsJsSpace(s[n])
  {
    if |s| > 0 && IsJsSpace(s[0]) then 1 + LeadingSpace(s[1..]) else 0
  }

  /** How many white-space characters `s` ends with. */
  function TrailingSpace(s: string): (n: nat)
    ensures n <= |s| && SpaceBetween(s, |s| - n, |s|)
    ensures n < |s| ==> !IsJsSpace(s[|s| - n - 1])
  {
    if |s| > 0 && IsJsSpace(s[|s| - 1]) then 1 + TrailingSpace(s[..|s| - 1]) else 0
  }

  /** `s.trim()`: the infix of `s` left after removing the white space at
      both ends. */
  function Trim(s: string): (r: string)
    ensures r == "" <==> AllSpace(s)
    ensures r != "" ==> !IsJsSpace(r[0]) && !IsJsSpace(r[|r| - 1])
    ensures var a := LeadingSpace(s);
            && a + |r| <= |s| && r == s[a..a + |r|]
            && SpaceBetween(s, a + |r|, |s|)
  {
    var a := LeadingSpace(s);
    if a == |s| then
      ""
    else
      var e := |s| - TrailingSpace(s);
      assert a < e;
      s[a..e]
  }

  /** Trimming twice is trimming once, and the strings `trim` leaves as
      they are are exactly those that neither start nor end with white
      space. */
  lemma TrimIdempotent(s: string)
    ensures Trim(Trim(s)) == Trim(s)
    ensures Trim(s) == s <==> s == "" || (!IsJsSpace(s[0]) && !IsJsSpace(s[|s| - 1]))
  {
  }
}
