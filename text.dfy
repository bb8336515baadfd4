/** Character-level string rules shared by the Java models and the
    JavaScript glue: case folding, trimming, the last-dot extension rule and
    Java's `compareToIgnoreCase`. Only ASCII letters are folded. */
module Text {
  import opened Wrappers

  function LowerChar(c: char): (r: char)
    ensures !('A' <= r <= 'Z')
    ensures r == c || ('A' <= c <= 'Z' && r as int == c as int + 32)
  {
    if 'A' <= c <= 'Z' then (c as int + 32) as char else c
  }

  predicate IsLowerCase(s: string) {
    forall i :: 0 <= i < |s| ==> !('A' <= s[i] <= 'Z')
  }

  /** `String.prototype.toLowerCase` and `String.toLowerCase`, ASCII part. */
  function Lower(s: string): (r: string)
    ensures |r| == |s| && IsLowerCase(r)
    ensures forall i :: 0 <= i < |s| ==> r[i] == LowerChar(s[i])
    ensures IsLowerCase(s) ==> r == s
  {
    seq(|s|, i requires 0 <= i < |s| => LowerChar(s[i]))
  }

  /** The characters `String.prototype.trim` strips (ASCII subset). */
  predicate IsWhitespace(c: char) {
    c == ' ' || c == '\t' || c == '\n' || c == '\r' || c == '\U{B}' || c == '\U{C}'
  }

  function TrimStart(s: string): (r: string)
    ensures |r| <= |s| && r == s[|s| - |r|..]
    ensures r == [] || !IsWhitespace(r[0])
    ensures forall i :: 0 <= i < |s| - |r| ==> IsWhitespace(s[i])
  {
    if s != [] && IsWhitespace(s[0]) then TrimStart(s[1..]) else s
  }

  function TrimEnd(s: string): (r: string)
    ensures |r| <= |s| && r == s[..|r|]
    ensures r == [] || !IsWhitespace(r[|r| - 1])
    ensures forall i :: |r| <= i < |s| ==> IsWhitespace(s[i])
  {
    if s != [] && IsWhitespace(s[|s| - 1]) then TrimEnd(s[..|s| - 1]) else s
  }

  /** Strips leading and trailing whitespace and keeps what lies between. */
  function Trim(s: string): (r: string)
    ensures exists i :: TrimmedAt(s, r, i)
    ensures r == [] || (!IsWhitespace(r[0]) && !IsWhitespace(r[|r| - 1]))
  {
    var e := TrimEnd(s);
    var r := TrimStart(e);
    assert r == s[|e| - |r|..|e|];
    assert TrimmedAt(s, r, |e| - |r|);
    r
  }

  /** `r` is the part of `s` starting at `i`, and everything of `s` around
      it is whitespace. */
  predicate TrimmedAt(s: string, r: string, i: int) {
    && 0 <= i && i + |r| <= |s| && r == s[i..i + |r|]
    && (forall k :: 0 <= k < i ==> IsWhitespace(s[k]))
    && (forall k :: i + |r| <= k < |s| ==> IsWhitespace(s[k]))
  }

  /** `String.lastIndexOf` for one character: -1 when it does not occur. */
  function LastIndexOf(s: string, c: char): (r: int)
    ensures -1 <= r < |s|
    ensures r == -1 <==> c !in s
    ensures r >= 0 ==> s[r] == c && c !in s[r + 1..]
  {
    if s == [] then -1
    else if s[|s| - 1] == c then |s| - 1
    else
      var r := LastIndexOf(s[..|s| - 1], c);
      assert s == s[..|s| - 1] + [s[|s| - 1]];
      if r >= 0 then assert s[r + 1..] == s[..|s| - 1][r + 1..] + [s[|s| - 1]]; r else r
  }

  /** The extension rule of both Java `FileNode` constructors: the
      lower-cased text after the last dot of a file name, or none when the
      name holds no dot. */
  function ExtensionOf(name: string): (r: Option<string>)
    ensures r == None <==> '.' !in name
    ensures r.Some? ==> IsLowerCase(r.value)
    ensures r.Some? ==> exists k :: LastDotAt(name, k) && r.value == Lower(name[k + 1..])
  {
    if '.' in name then
      var dot := LastIndexOf(name, '.');
      var ext := Lower(name[dot + 1..]);
      assert LastDotAt(name, dot);
      Some(ext)
    else None
  }

  /** Position `k` holds the last dot of `name`. */
  predicate LastDotAt(name: string, k: int) {
    0 <= k < |name| && name[k] == '.' && '.' !in name[k + 1..]
  }

  /** Java's `String.compareToIgnoreCase`: the difference of the first pair
      of characters that differ after case folding, else the difference of
      the lengths. */
  function CompareIgnoreCase(a: string, b: string): int {
    if a == [] || b == [] then |a| - |b|
    else if LowerChar(a[0]) != LowerChar(b[0]) then LowerChar(a[0]) as int - LowerChar(b[0]) as int
    else CompareIgnoreCase(a[1..], b[1..])
  }

  lemma {:induction false} CompareIgnoreCaseAntisymmetric(a: string, b: string)
    ensures CompareIgnoreCase(a, b) == -CompareIgnoreCase(b, a)
  {
    if a != [] && b != [] && LowerChar(a[0]) == LowerChar(b[0]) {
      CompareIgnoreCaseAntisymmetric(a[1..], b[1..]);
    }
  }

  /** Comparing ignoring case is a total preorder, so sorting by it is well
      defined. */
  lemma {:induction false} CompareIgnoreCaseTransitive(a: string, b: string, c: string)
    requires CompareIgnoreCase(a, b) <= 0 && CompareIgnoreCase(b, c) <= 0
    ensures CompareIgnoreCase(a, c) <= 0
  {
    if a != [] && b != [] && c != [] {
      if LowerChar(a[0]) == LowerChar(b[0]) && LowerChar(b[0]) == LowerChar(c[0]) {
        CompareIgnoreCaseTransitive(a[1..], b[1..], c[1..]);
      }
    }
  }
}
