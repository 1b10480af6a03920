/** The part of `java.lang.String` the validator relies on: `trim()` and
    `isEmpty()`. `trim()` removes every leading and trailing character whose
    code point is at most U+0020 (space and all control characters), which is
    not the same set as Unicode white space. */
module JavaString {

  /** A character `trim()` strips from either end. */
  predicate Trimmable(c: char) {
    c <= ' '
  }

  /** Every character of `s` is one `trim()` would strip. */
  predicate AllTrimmable(s: string) {
    forall i :: 0 <= i < |s| ==> Trimmable(s[i])
  }

  /** Drops the leading trimmable characters: the first loop of `trim()`. */
  function TrimStart(s: string): (r: string)
    ensures |r| <= |s| && r == s[|s| - |r|..]
    ensures r == [] || !Trimmable(r[0])
    ensures forall i :: 0 <= i < |s| - |r| ==> Trimmable(s[i])
  {
    if s == [] || !Trimmable(s[0]) then s else TrimStart(s[1..])
  }

  /** Drops the trailing trimmable characters: the second loop of `trim()`. */
  function TrimEnd(s: string): (r: string)
    ensures |r| <= |s| && r == s[..|r|]
    ensures r == [] || !Trimmable(r[|r| - 1])
    ensures forall i :: |r| <= i < |s| ==> Trimmable(s[i])
  {
    if s == [] || !Trimmable(s[|s| - 1]) then s else TrimEnd(s[..|s| - 1])
  }

  /** `r` is `s` with exactly `a` characters dropped at the front and the rest
      of the dropped characters at the back, all of them trimmable. */
  predicate StrippedAt(s: string, a: int, r: string) {
    && 0 <= a <= |s| - |r|
    && r == s[a..a + |r|]
    && (forall i :: 0 <= i < a ==> Trimmable(s[i]))
    && (forall i :: a + |r| <= i < |s| ==> Trimmable(s[i]))
  }

  /** `s.trim()`: the longest infix of `s` that neither starts nor ends with a
      trimmable character, obtained by dropping only trimmable characters. */
  function Trim(s: string): (r: string)
    ensures |r| <= |s|
    ensures exists a :: StrippedAt(s, a, r)
    ensures r != [] ==> !Trimmable(r[0]) && !Trimmable(r[|r| - 1])
  {
    var t := TrimStart(s);
    var r := TrimEnd(t);
    var a := |s| - |t|;
    assert StrippedAt(s, a, r);
    r
  }

  /** `s.trim().isEmpty()`. */
  predicate IsBlank(s: string) {
    Trim(s) == []
  }

  /** A string is blank exactly when every one of its characters is at most
      U+0020; in particular the empty string is blank. */
  lemma BlankIffAllTrimmable(s: string)
    ensures IsBlank(s) <==> AllTrimmable(s)
  {
    var r := Trim(s);
    if r != [] {
      var a :| StrippedAt(s, a, r);
      assert r[0] == s[a];
    }
  }
}
