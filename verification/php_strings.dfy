/**
 * The PHP string built-ins the ingest service relies on, over `string`
 * (a sequence of characters standing for PHP's byte strings):
 * trim(), pathinfo(..., PATHINFO_FILENAME), ctype_xdigit(), strpos() and stripos().
 * Case folding is ASCII-only, as PHP's own strtolower/stripos do it.
 */
module PhpStrings {
  import opened Wrappers

  /** The characters trim() strips by default: space, tab, LF, CR, NUL and vertical tab. */
  predicate IsTrimChar(c: char) {
    c == ' ' || c == '\t' || c == '\n' || c == '\r' || c == '\0' || c == '\U{B}'
  }

  /** The first position from `i` on that does not hold a trim character (|s| if none). */
  function TrimStart(s: string, i: nat): (lo: nat)
    requires i <= |s|
    ensures i <= lo <= |s|
    ensures forall k :: i <= k < lo ==> IsTrimChar(s[k])
    ensures lo == |s| || !IsTrimChar(s[lo])
    decreases |s| - i
  {
    if i < |s| && IsTrimChar(s[i]) then TrimStart(s, i + 1) else i
  }

  /** The end of `s[lo..j]` once its trailing trim characters are dropped. */
  function TrimEnd(s: string, lo: nat, j: nat): (hi: nat)
    requires lo <= j <= |s|
    ensures lo <= hi <= j
    ensures forall k :: hi <= k < j ==> IsTrimChar(s[k])
    ensures hi == lo || !IsTrimChar(s[hi - 1])
    decreases j
  {
    if j > lo && IsTrimChar(s[j - 1]) then TrimEnd(s, lo, j - 1) else j
  }

  /** PHP's trim(): the longest slice of `s` that neither starts nor ends with a trim character. */
  function Trim(s: string): (r: string)
    ensures var lo := TrimStart(s, 0);
            lo + |r| <= |s| && r == s[lo..lo + |r|]
            && (forall i :: 0 <= i < lo ==> IsTrimChar(s[i]))
            && (forall i :: lo + |r| <= i < |s| ==> IsTrimChar(s[i]))
    ensures r == [] || (!IsTrimChar(r[0]) && !IsTrimChar(r[|r| - 1]))
  {
    var lo := TrimStart(s, 0);
    s[lo..TrimEnd(s, lo, |s|)]
  }

  /** The position of the last `c` in `s`, if any. */
  function LastIndexOf(s: string, c: char): (r: Option<nat>)
    ensures r.Some? ==> r.value < |s| && s[r.value] == c
                        && forall j :: r.value < j < |s| ==> s[j] != c
    ensures r.None? ==> forall j :: 0 <= j < |s| ==> s[j] != c
  {
    if s == [] then None
    else if s[|s| - 1] == c then Some(|s| - 1)
    else LastIndexOf(s[..|s| - 1], c)
  }

  /** basename(): what follows the last '/'. */
  function Basename(path: string): string {
    match LastIndexOf(path, '/')
    case Some(k) => path[k + 1..]
    case None => path
  }

  /**
   * pathinfo($path, PATHINFO_FILENAME): the base name without its extension,
   * the extension being everything from the last '.' on.
   */
  function PathinfoFilename(path: string): (r: string)
    ensures var b := Basename(path);
            |r| <= |b| && r == b[..|r|]
            && (|r| == |b| ==> '.' !in b)
            && (|r| < |b| ==> b[|r|] == '.' && '.' !in b[|r| + 1..])
  {
    var b := Basename(path);
    match LastIndexOf(b, '.')
    case Some(k) => b[..k]
    case None => b
  }

  /** pathinfo() of "name.ext", with no directory and no other dot, is "name". */
  lemma PathinfoFilenameOfSimpleName(name: string, ext: string)
    requires '/' !in name && '/' !in ext && '.' !in name && '.' !in ext
    ensures PathinfoFilename(name + "." + ext) == name
  {
    var path := name + "." + ext;
    assert forall j :: 0 <= j < |path| ==> path[j] == (if j < |name| then name[j] else if j == |name| then '.' else ext[j - |name| - 1]);
    assert Basename(path) == path;
    assert path[|name|] == '.';
    var k := LastIndexOf(path, '.').value;
    assert k == |name|;
    assert path[..k] == name;
  }

  /** trim() leaves a string alone that neither starts nor ends with a trim character. */
  lemma TrimUntrimmed(s: string)
    requires s == [] || (!IsTrimChar(s[0]) && !IsTrimChar(s[|s| - 1]))
    ensures Trim(s) == s
  {
    assert TrimStart(s, 0) == 0;
    assert TrimEnd(s, 0, |s|) == |s|;
  }

  predicate IsHexDigit(c: char) {
    '0' <= c <= '9' || 'a' <= c <= 'f' || 'A' <= c <= 'F'
  }

  /** ctype_xdigit() on a string: true iff it is non-empty and every character is a hex digit. */
  predicate CtypeXdigit(s: string) {
    |s| > 0 && forall i :: 0 <= i < |s| ==> IsHexDigit(s[i])
  }

  function LowerChar(c: char): char {
    if 'A' <= c <= 'Z' then (c as int + 32) as char else c
  }

  /** ASCII lower-casing, character by character. */
  function Lower(s: string): (r: string)
    ensures |r| == |s|
  {
    seq(|s|, i requires 0 <= i < |s| => LowerChar(s[i]))
  }

  /** `needle` occurs in `haystack` starting at position `i`. */
  predicate OccursAt(haystack: string, needle: string, i: nat) {
    i + |needle| <= |haystack| && haystack[i..i + |needle|] == needle
  }

  /** An occurrence at `j` > 0 is an occurrence at `j` - 1 in the haystack without its first character. */
  lemma OccursAtShift(haystack: string, needle: string, j: nat)
    requires haystack != [] && 0 < j
    ensures OccursAt(haystack, needle, j) == OccursAt(haystack[1..], needle, j - 1)
  {
    if j + |needle| <= |haystack| {
      assert haystack[j..j + |needle|] == haystack[1..][j - 1..j - 1 + |needle|];
    }
  }

  /** strpos(): the first position at which `needle` occurs, or None (PHP's false). */
  function Strpos(haystack: string, needle: string): (r: Option<nat>)
    ensures r.Some? ==> OccursAt(haystack, needle, r.value)
                        && forall j: nat :: j < r.value ==> !OccursAt(haystack, needle, j)
    ensures r.None? ==> forall j: nat :: !OccursAt(haystack, needle, j)
    decreases |haystack|
  {
    if |needle| > |haystack| then None
    else if haystack[..|needle|] == needle then Some(0)
    else
      var rest := Strpos(haystack[1..], needle);
      assert !OccursAt(haystack, needle, 0);
      forall j: nat | 0 < j
        ensures OccursAt(haystack, needle, j) == OccursAt(haystack[1..], needle, j - 1)
      {
        OccursAtShift(haystack, needle, j);
      }
      match rest
      case Some(k) => Some(k + 1)
      case None => None
  }

  /** stripos(): strpos() after lower-casing both arguments. */
  function Stripos(haystack: string, needle: string): (r: Option<nat>)
    ensures r.Some? ==> OccursAt(Lower(haystack), Lower(needle), r.value)
                        && forall j: nat :: j < r.value ==> !OccursAt(Lower(haystack), Lower(needle), j)
    ensures r.None? ==> forall j: nat :: !OccursAt(Lower(haystack), Lower(needle), j)
  {
    Strpos(Lower(haystack), Lower(needle))
  }
}
