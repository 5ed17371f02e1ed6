/**
 * The client key of `rateLimitByIp` (src/lib/rate-limit.ts): the first entry of the
 * `x-forwarded-for` header with surrounding white space removed.
 */
module ForwardedFor {
  import opened Options

  /** The characters `String.prototype.trim` removes: white space and line terminators. */
  predicate IsJsWhitespace(c: char)
  {
    c == '\t' || c == '\n' || c == '\U{B}' || c == '\U{C}' || c == '\r' || c == ' '
    || c == '\U{A0}' || c == '\U{1680}' || ('\U{2000}' <= c <= '\U{200A}')
    || c == '\U{2028}' || c == '\U{2029}' || c == '\U{202F}' || c == '\U{205F}'
    || c == '\U{3000}' || c == '\U{FEFF}'
  }

  /** `s.split(",")[0]`: everything before the first comma. */
  function FirstSegment(s: string): (r: string)
    ensures ',' !in r
    ensures r == s || (|r| < |s| && s[..|r|] == r && s[|r|] == ',')
  {
    if |s| == 0 then ""
    else if s[0] == ',' then ""
    else [s[0]] + FirstSegment(s[1..])
  }

  /** Drops the leading characters that satisfy `ws`. */
  function TrimStart(s: string, ws: char -> bool): (r: string)
    ensures |r| <= |s| && r == s[|s| - |r|..]
    ensures forall i :: 0 <= i < |s| - |r| ==> ws(s[i])
    ensures |r| == 0 || !ws(r[0])
  {
    if |s| > 0 && ws(s[0]) then
      var r := TrimStart(s[1..], ws);
      assert s[1..][|s[1..]| - |r|..] == s[|s| - |r|..];
      r
    else s
  }

  /** Drops the trailing characters that satisfy `ws`. */
  function TrimEnd(s: string, ws: char -> bool): (r: string)
    ensures |r| <= |s| && r == s[..|r|]
    ensures forall i :: |r| <= i < |s| ==> ws(s[i])
    ensures |r| == 0 || !ws(r[|r| - 1])
  {
    if |s| > 0 && ws(s[|s| - 1]) then
      var r := TrimEnd(s[..|s| - 1], ws);
      assert s[..|s| - 1][..|r|] == s[..|r|];
      r
    else s
  }

  /** How many characters `TrimStart` drops. */
  function LeadingSpace(s: string, ws: char -> bool): nat
  {
    |s| - |TrimStart(s, ws)|
  }

  /**
   * `s.trim()` for the white-space test `ws`: the longest infix of `s` that neither starts nor ends with white space;
   * what is cut off on either side is all white space.
   */
  function Trim(s: string, ws: char -> bool): (r: string)
    ensures LeadingSpace(s, ws) + |r| <= |s|
    ensures r == s[LeadingSpace(s, ws)..LeadingSpace(s, ws) + |r|]
    ensures forall k :: 0 <= k < LeadingSpace(s, ws) ==> ws(s[k])
    ensures forall k :: LeadingSpace(s, ws) + |r| <= k < |s| ==> ws(s[k])
    ensures |r| == 0 || (!ws(r[0]) && !ws(r[|r| - 1]))
  {
    var t := TrimStart(s, ws);
    var r := TrimEnd(t, ws);
    InfixOfSuffix(s, t, r, ws);
    r
  }

  /** A prefix `r` of a suffix `t` of `s` is an infix of `s`; white space after `r` in `t` is white space in `s`. */
  lemma InfixOfSuffix(s: string, t: string, r: string, ws: char -> bool)
    requires |t| <= |s| && t == s[|s| - |t|..]
    requires |r| <= |t| && r == t[..|r|]
    requires forall i :: |r| <= i < |t| ==> ws(t[i])
    ensures r == s[|s| - |t|..|s| - |t| + |r|]
    ensures forall k :: |s| - |t| + |r| <= k < |s| ==> ws(s[k])
  {
    var lead := |s| - |t|;
    forall k | lead + |r| <= k < |s| ensures ws(s[k]) {
      assert s[k] == t[k - lead];
    }
  }

  /** Trimming twice is trimming once. */
  lemma TrimIdempotent(s: string, ws: char -> bool)
    ensures Trim(Trim(s, ws), ws) == Trim(s, ws)
  {
    var r := Trim(s, ws);
    if |r| > 0 {
      assert TrimStart(r, ws) == r;
      assert TrimEnd(r, ws) == r;
    }
  }

  /**
   * The rate-limit key of a request: the trimmed first entry of `x-forwarded-for`, or
   * "unknown" when the header is absent. A header that is present but blank gives "".
   */
  function ClientKey(forwardedFor: Option<string>): (r: string)
    ensures forwardedFor.None? ==> r == "unknown"
    ensures forwardedFor.Some? ==> ',' !in r && r == Trim(FirstSegment(forwardedFor.value), IsJsWhitespace)
  {
    match forwardedFor
    case None => "unknown"
    case Some(h) =>
      var seg := FirstSegment(h);
      var t := Trim(seg, IsJsWhitespace);
      assert forall k :: 0 <= k < |t| ==> t[k] == seg[LeadingSpace(seg, IsJsWhitespace) + k];
      t
  }

  /** Worked example: "7, 8" yields the key "7"; a blank header yields "". */
  lemma ClientKeyExamples()
    ensures ClientKey(Some("7, 8")) == "7"
    ensures ClientKey(Some(" ")) == ""
  {
    assert FirstSegment("7, 8") == "7";
    assert !IsJsWhitespace('7');
    assert TrimStart("7", IsJsWhitespace) == "7";
    assert TrimEnd("7", IsJsWhitespace) == "7";
    assert FirstSegment(" ") == " ";
    assert IsJsWhitespace(' ');
    assert " "[1..] == "";
    assert TrimStart(" ", IsJsWhitespace) == "";
  }
}
