/** String helpers: whitespace trimming and ASCII case mapping. */
module StrUtil {
  import opened Bytes
  import opened Wrappers

  /** `trim`'s default argument is the literal " \t\0"; a `std::string`
      built from a C string stops at the NUL, so the set is space and tab. */
  const DefaultTrimSet: set<Char8> := {' ', '\t'}

  /** `trim_copy`'s default: " \t\n\r\f\v". */
  const TrimCopySet: set<Char8> := {' ', '\t', '\n', '\r', 12 as char, 11 as char}

  /** Index of the first character not in `ws` (`find_first_not_of`),
      or |s| when there is none. */
  function LeadingCount(s: Str, ws: set<Char8>): (n: nat)
    ensures n <= |s|
  {
    if |s| == 0 || s[0] !in ws then 0 else 1 + LeadingCount(s[1..], ws)
  }

  /** Number of characters in `ws` at the end of `s`; `|s| - 1 - n` is
      `find_last_not_of` when that exists. */
  function TrailingCount(s: Str, ws: set<Char8>): (n: nat)
    ensures n <= |s|
  {
    if |s| == 0 || s[|s| - 1] !in ws then 0 else 1 + TrailingCount(s[..|s| - 1], ws)
  }

  /** The leading count is the length of the longest prefix inside `ws`. */
  lemma {:induction false} LeadingCountSpec(s: Str, ws: set<Char8>)
    ensures forall j :: 0 <= j < LeadingCount(s, ws) ==> s[j] in ws
    ensures LeadingCount(s, ws) < |s| ==> s[LeadingCount(s, ws)] !in ws
  {
    if |s| > 0 && s[0] in ws {
      LeadingCountSpec(s[1..], ws);
    }
  }

  /** The trailing count is the length of the longest suffix inside `ws`. */
  lemma {:induction false} TrailingCountSpec(s: Str, ws: set<Char8>)
    ensures forall j :: |s| - TrailingCount(s, ws) <= j < |s| ==> s[j] in ws
    ensures TrailingCount(s, ws) < |s| ==> s[|s| - 1 - TrailingCount(s, ws)] !in ws
  {
    if |s| > 0 && s[|s| - 1] in ws {
      TrailingCountSpec(s[..|s| - 1], ws);
    }
  }

  /** When some character is outside `ws`, the leading and trailing runs
      do not overlap. */
  lemma CountsMeet(s: Str, ws: set<Char8>)
    ensures LeadingCount(s, ws) < |s| ==> LeadingCount(s, ws) + TrailingCount(s, ws) < |s|
  {
    LeadingCountSpec(s, ws);
    TrailingCountSpec(s, ws);
  }

  /** `trim(str, whitespace)`: the substring from the first to the last
      character outside `ws`, or "" when every character is in `ws`. */
  function Trim(s: Str, ws: set<Char8>): (r: Str)
    ensures |r| <= |s|
  {
    CountsMeet(s, ws);
    var a := LeadingCount(s, ws);
    if a == |s| then [] else s[a..|s| - TrailingCount(s, ws)]
  }

  /** What `trim` keeps: empty exactly when every character is in `ws`,
      otherwise a substring whose ends are outside `ws`, with only
      characters of `ws` before and after it. */
  lemma TrimSpec(s: Str, ws: set<Char8>)
    ensures var r := Trim(s, ws);
            && (r == [] <==> forall j :: 0 <= j < |s| ==> s[j] in ws)
            && (r != [] ==> r[0] !in ws && r[|r| - 1] !in ws)
            && LeadingCount(s, ws) + |r| <= |s|
            && r == s[LeadingCount(s, ws)..LeadingCount(s, ws) + |r|]
            && (forall j :: 0 <= j < LeadingCount(s, ws) ==> s[j] in ws)
            && (forall j :: LeadingCount(s, ws) + |r| <= j < |s| ==> s[j] in ws)
  {
    LeadingCountSpec(s, ws);
    TrailingCountSpec(s, ws);
    CountsMeet(s, ws);
    var a := LeadingCount(s, ws);
    var r := Trim(s, ws);
    if a == |s| {
      assert r == [];
    } else {
      var t := TrailingCount(s, ws);
      assert r == s[a..|s| - t] && |r| == |s| - t - a > 0;
      assert r[0] == s[a] && r[|r| - 1] == s[|s| - 1 - t];
      assert !(forall j :: 0 <= j < |s| ==> s[j] in ws) by { assert s[a] !in ws; }
    }
  }

  /** `trim(str)` with its default argument. */
  function TrimDefault(s: Str): (r: Str)
    ensures |r| <= |s|
  {
    Trim(s, DefaultTrimSet)
  }

  /** `trim_copy(s)` with its default argument. */
  function TrimCopy(s: Str): (r: Str)
    ensures |r| <= |s|
  {
    Trim(s, TrimCopySet)
  }

  /** Trimming a string that neither starts nor ends with whitespace
      returns it unchanged. */
  lemma {:induction false} TrimFixed(s: Str, ws: set<Char8>)
    requires s != [] ==> s[0] !in ws && s[|s| - 1] !in ws
    ensures Trim(s, ws) == s
  {
    if s != [] {
      assert LeadingCount(s, ws) == 0;
      assert TrailingCount(s, ws) == 0;
    }
  }

  /** Trimming a string that does not start or end with whitespace,
      followed by whitespace only, gives back the string. */
  lemma {:induction false} TrimPadded(x: Str, pad: Str, ws: set<Char8>)
    requires x != [] ==> x[0] !in ws && x[|x| - 1] !in ws
    requires forall j :: 0 <= j < |pad| ==> pad[j] in ws
    ensures Trim(x + pad, ws) == x
  {
    var s := x + pad;
    var r := Trim(s, ws);
    TrimSpec(s, ws);
    if x == [] {
      assert s == pad;
    } else {
      assert s[0] == x[0];
      assert LeadingCount(s, ws) == 0;
      assert s[|x| - 1] == x[|x| - 1];
      assert forall j :: |x| <= j < |s| ==> s[j] == pad[j - |x|];
      assert |r| == |x|;
      assert r == s[..|x|] == x;
    }
  }

  /** `trim` is idempotent. */
  lemma TrimIdempotent(s: Str, ws: set<Char8>)
    ensures Trim(Trim(s, ws), ws) == Trim(s, ws)
  {
    TrimSpec(s, ws);
    TrimFixed(Trim(s, ws), ws);
  }

  function ToUpper(s: Str): (r: Str)
    ensures |r| == |s|
    ensures forall i :: 0 <= i < |s| ==> r[i] == UpperChar(s[i])
  {
    seq(|s|, i requires 0 <= i < |s| => UpperChar(s[i]))
  }

  function ToLower(s: Str): (r: Str)
    ensures |r| == |s|
    ensures forall i :: 0 <= i < |s| ==> r[i] == LowerChar(s[i])
  {
    seq(|s|, i requires 0 <= i < |s| => LowerChar(s[i]))
  }

  /** Case mapping works character by character, so it distributes over
      concatenation. */
  lemma ToUpperAppend(a: Str, b: Str)
    ensures ToUpper(a + b) == ToUpper(a) + ToUpper(b)
  {
    assert forall i :: 0 <= i < |a + b| ==> ToUpper(a + b)[i] == (ToUpper(a) + ToUpper(b))[i];
  }

  /** Case mapping is idempotent, and each direction forgets the other. */
  lemma CaseMapping(s: Str)
    ensures ToUpper(ToUpper(s)) == ToUpper(s)
    ensures ToLower(ToLower(s)) == ToLower(s)
    ensures ToLower(ToUpper(s)) == ToLower(s)
    ensures ToUpper(ToLower(s)) == ToUpper(s)
  {
  }

  /** `find_last_of(c)`: the index of the last occurrence of `c`, or
      `None` (npos) when `c` does not occur. */
  function LastIndexOf(s: Str, c: Char8): (r: Option<nat>)
    ensures r.None? <==> c !in s
    ensures r.Some? ==> r.value < |s| && s[r.value] == c
    ensures r.Some? ==> forall j :: r.value < j < |s| ==> s[j] != c
  {
    if |s| == 0 then None
    else if s[|s| - 1] == c then Some(|s| - 1)
    else LastIndexOf(s[..|s| - 1], c)
  }

  /** The characters of `s` other than NUL, in order: what pushing every
      non-zero byte onto an empty string builds. */
  function DropNul(s: Str): (r: Str)
    ensures |r| <= |s|
    ensures (forall j :: 0 <= j < |s| ==> s[j] != 0 as char) ==> r == s
    ensures forall j :: 0 <= j < |r| ==> r[j] != 0 as char
    ensures s != [] && s[0] != 0 as char ==> r != [] && r[0] == s[0]
  {
    if |s| == 0 then []
    else if s[0] == 0 as char then DropNul(s[1..])
    else [s[0]] + DropNul(s[1..])
  }
}
