/** The few JavaScript built-ins the reconciliation code leans on:
    `Array.prototype.findIndex` and `String.prototype.trim`, plus the usual
    Option type standing in for "maybe absent". */
module Prelude {

  datatype Option<+T> = None | Some(value: T)

  /** `s.findIndex(p)`: the first index whose element satisfies `p`, or None
      where JavaScript returns -1. */
  function FindIndex<T>(s: seq<T>, p: T -> bool): (r: Option<nat>)
    ensures r.Some? ==> r.value < |s| && p(s[r.value])
    ensures r.Some? ==> forall k :: 0 <= k < r.value ==> !p(s[k])
    ensures r.None? <==> forall k :: 0 <= k < |s| ==> !p(s[k])
  {
    if s == [] then None
    else if p(s[0]) then Some(0)
    else match FindIndex(s[1..], p)
      case None => None
      case Some(k) => Some(k + 1)
  }

  /** The characters `String.prototype.trim` strips: the ECMAScript
      WhiteSpace (tab, vertical tab, form feed, the Zs space separators and
      the byte order mark) and LineTerminator (LF, CR, U+2028, U+2029) sets. */
  predicate IsWhiteSpace(c: char)
  {
    || c == '\t' || c == '\n' || c == '\U{000B}' || c == '\U{000C}' || c == '\r'
    || c == ' ' || c == '\U{00A0}' || c == '\U{1680}'
    || ('\U{2000}' <= c <= '\U{200A}')
    || c == '\U{2028}' || c == '\U{2029}' || c == '\U{202F}' || c == '\U{205F}'
    || c == '\U{3000}' || c == '\U{FEFF}'
  }

  /** Drops the leading white space: the result is a suffix of `s`. */
  function TrimStart(s: string): (r: string)
    ensures |r| <= |s| && r == s[|s| - |r|..]
    ensures forall k :: 0 <= k < |s| - |r| ==> IsWhiteSpace(s[k])
    ensures r != [] ==> !IsWhiteSpace(r[0])
  {
    if s != [] && IsWhiteSpace(s[0]) then TrimStart(s[1..]) else s
  }

  /** Drops the trailing white space: the result is a prefix of `s`. */
  function TrimEnd(s: string): (r: string)
    ensures |r| <= |s| && r == s[..|r|]
    ensures forall k :: |r| <= k < |s| ==> IsWhiteSpace(s[k])
    ensures r != [] ==> !IsWhiteSpace(r[|r| - 1])
  {
    if s != [] && IsWhiteSpace(s[|s| - 1]) then TrimEnd(s[..|s| - 1]) else s
  }

  /** `s.trim()`: the slice of `s` between its leading and its trailing white
      space. It is empty exactly when `s` is white space throughout, and
      otherwise begins and ends with a character that is not white space. */
  function Trim(s: string): (r: string)
    ensures |r| <= |s|
    ensures r == [] <==> forall k :: 0 <= k < |s| ==> IsWhiteSpace(s[k])
    ensures r != [] ==> !IsWhiteSpace(r[0]) && !IsWhiteSpace(r[|r| - 1])
    ensures exists a :: Frames(s, a, r)
  {
    var t := TrimStart(s);
    var r := TrimEnd(t);
    // An empty result leaves nothing after the leading white space.
    assert r == [] ==> t == [];
    assert Frames(s, |s| - |t|, r);
    r
  }

  /** `r` sits at offset `a` of `s` with only white space around it. */
  ghost predicate Frames(s: string, a: int, r: string)
  {
    && 0 <= a <= a + |r| <= |s|
    && r == s[a..a + |r|]
    && (forall k :: 0 <= k < a ==> IsWhiteSpace(s[k]))
    && (forall k :: a + |r| <= k < |s| ==> IsWhiteSpace(s[k]))
  }
}
