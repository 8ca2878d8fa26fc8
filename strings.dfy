/**
 * The three string helpers of src/mlpas.cpp: `rtrim`, `ltrim` and
 * `removeComment`. Each one erases part of its string argument in place and
 * returns it; here the helper returns the new string value instead.
 * The `std::string` searches they call (`find_first_of`,
 * `find_first_not_of`, `find_last_not_of`) are modelled as functions whose
 * `None` result stands for `std::string::npos`.
 */
module Strings {
  import opened Wrappers

  /** The default trim set `ws`: space, tab, newline, carriage return, form feed, vertical tab. */
  const Whitespace: seq<char> := [' ', '\t', '\n', '\r', '\U{C}', '\U{B}']

  /** `s.find_first_of(t)`: the first position holding a character of `t`. */
  function FindFirstOf(s: string, t: seq<char>): (r: Option<nat>)
    ensures r.Some? ==> r.value < |s| && s[r.value] in t
    ensures forall i :: 0 <= i < |s| && (r.None? || i < r.value) ==> s[i] !in t
  {
    if s == [] then None
    else if s[0] in t then Some(0)
    else match FindFirstOf(s[1..], t)
      case None => None
      case Some(p) => Some(p + 1)
  }

  /** `s.find_first_not_of(t)`: the first position holding a character outside `t`. */
  function FindFirstNotOf(s: string, t: seq<char>): (r: Option<nat>)
    ensures r.Some? ==> r.value < |s| && s[r.value] !in t
    ensures forall i :: 0 <= i < |s| && (r.None? || i < r.value) ==> s[i] in t
  {
    if s == [] then None
    else if s[0] !in t then Some(0)
    else match FindFirstNotOf(s[1..], t)
      case None => None
      case Some(p) => Some(p + 1)
  }

  /** `s.find_last_not_of(t)`: the last position holding a character outside `t`. */
  function FindLastNotOf(s: string, t: seq<char>): (r: Option<nat>)
    ensures r.Some? ==> r.value < |s| && s[r.value] !in t
    ensures forall i :: 0 <= i < |s| && (r.None? || r.value < i) ==> s[i] in t
  {
    if s == [] then None
    else if s[|s| - 1] !in t then Some(|s| - 1)
    else FindLastNotOf(s[..|s| - 1], t)
  }

  /**
   * `rtrim`: `s.erase(s.find_last_not_of(t) + 1)`. When every character is
   * in `t` the search gives npos, and npos + 1 wraps around to 0, so the
   * whole string is erased.
   */
  function RTrim(s: string, t: seq<char>): (r: string)
    ensures r <= s
    ensures forall i :: |r| <= i < |s| ==> s[i] in t
    ensures r == [] || r[|r| - 1] !in t
  {
    var cut := match FindLastNotOf(s, t)
      case None => 0
      case Some(p) => p + 1;
    s[..cut]
  }

  /**
   * `ltrim`: `s.erase(0, s.find_first_not_of(t))`. An npos count erases to
   * the end of the string.
   */
  function LTrim(s: string, t: seq<char>): (r: string)
    ensures |r| <= |s| && r == s[|s| - |r|..]
    ensures forall i :: 0 <= i < |s| - |r| ==> s[i] in t
    ensures r == [] || r[0] !in t
  {
    var count := match FindFirstNotOf(s, t)
      case None => |s|
      case Some(p) => p;
    s[count..]
  }

  /** `removeComment`: cut the line at its first `;`, if it has one. */
  function RemoveComment(line: string): (r: string)
    ensures r <= line
    ensures ';' !in r
    ensures |r| < |line| ==> line[|r|] == ';'
  {
    match FindFirstOf(line, [';'])
    case None => line
    case Some(p) => line[..p]
  }

  /** `rtrim` removes exactly the trailing run: any prefix with the same two properties is its result. */
  lemma RTrimUnique(s: string, t: seq<char>, p: string)
    requires p <= s
    requires forall i :: |p| <= i < |s| ==> s[i] in t
    requires p == [] || p[|p| - 1] !in t
    ensures p == RTrim(s, t)
  {
  }

  /** `ltrim` removes exactly the leading run: any suffix with the same two properties is its result. */
  lemma LTrimUnique(s: string, t: seq<char>, p: string)
    requires |p| <= |s| && p == s[|s| - |p|..]
    requires forall i :: 0 <= i < |s| - |p| ==> s[i] in t
    requires p == [] || p[0] !in t
    ensures p == LTrim(s, t)
  {
  }

  /**
   * Trimming a line on both sides with the default set `ws`: what is left
   * neither starts nor ends with whitespace, and it is a slice of the line
   * with only whitespace cut off around it.
   */
  lemma TrimWhitespace(s: string)
    ensures var r := LTrim(RTrim(s, Whitespace), Whitespace);
      (r == [] || (r[0] !in Whitespace && r[|r| - 1] !in Whitespace)) &&
      exists i, j :: 0 <= i <= j <= |s| && r == s[i..j] &&
        (forall k :: 0 <= k < i ==> s[k] in Whitespace) && (forall k :: j <= k < |s| ==> s[k] in Whitespace)
  {
    var right := RTrim(s, Whitespace);
    var r := LTrim(right, Whitespace);
    var i := |right| - |r|;
    assert r == s[i..|right|];
    if r != [] {
      assert r[|r| - 1] == right[|right| - 1];
    }
  }

  /** Trimming twice from the right changes nothing the second time. */
  lemma RTrimIdempotent(s: string, t: seq<char>)
    ensures RTrim(RTrim(s, t), t) == RTrim(s, t)
  {
    var r := RTrim(s, t);
    RTrimUnique(r, t, r);
  }

  /** Trimming twice from the left changes nothing the second time. */
  lemma LTrimIdempotent(s: string, t: seq<char>)
    ensures LTrim(LTrim(s, t), t) == LTrim(s, t)
  {
    var r := LTrim(s, t);
    LTrimUnique(r, t, r);
  }

  /** A line without `;` is left whole, and removing the comment twice changes nothing the second time. */
  lemma RemoveCommentIdempotent(line: string)
    ensures ';' !in line ==> RemoveComment(line) == line
    ensures RemoveComment(RemoveComment(line)) == RemoveComment(line)
  {
    var r := RemoveComment(line);
    if |r| < |line| {
      assert line[|r|] in line;
    }
    var r2 := RemoveComment(r);
    if |r2| < |r| {
      assert r[|r2|] in r;
    }
  }
}
