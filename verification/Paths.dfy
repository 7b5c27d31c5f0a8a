// The path helpers of files_names.c, and paths in canonical form.
module Paths {
  import opened Options

  // CF_BUFSIZE - CF_BUFFERMARGIN, and the longest node CompressPath lets pass.
  const PATH_LIMIT := 4096 - 128
  const NODE_LIMIT := 256 + 1

  predicate IsFileSep(c: char) {
    c == '/'
  }

  predicate IsSpace(c: char) {
    c == ' ' || 9 as char <= c <= 13 as char
  }

  // ---------------------------------------------------------------- reading a path

  /** The first position from i on that is no quote. */
  function QuotesEnd(f: string, i: nat): (j: nat)
    requires i <= |f|
    ensures i <= j <= |f|
    ensures forall k | i <= k < j :: f[k] == '"'
    ensures j < |f| ==> f[j] != '"'
    decreases |f| - i
  {
    if i == |f| || f[i] != '"' then i else QuotesEnd(f, i + 1)
  }

  /** IsAbsoluteFileName of the string that starts at position i: quotes in front do not count. */
  predicate IsAbsoluteAt(f: string, i: nat)
    requires i <= |f|
  {
    QuotesEnd(f, i) < |f| && IsFileSep(f[QuotesEnd(f, i)])
  }

  /** LastFileSeparator; |s| without one. */
  function LastSep(s: string): (p: nat)
    ensures p <= |s|
    ensures p < |s| ==> IsFileSep(s[p])
    ensures p < |s| ==> forall k | p < k < |s| :: !IsFileSep(s[k])
    ensures p == |s| ==> forall k | 0 <= k < |s| :: !IsFileSep(s[k])
  {
    LastSepBefore(s, |s|)
  }

  function LastSepBefore(s: string, e: nat): (p: nat)
    requires e <= |s|
    ensures p < e || p == |s|
    ensures p < |s| ==> IsFileSep(s[p])
    ensures forall k | 0 <= k < e && (p == |s| || p < k) :: !IsFileSep(s[k])
  {
    if e == 0 then |s| else if IsFileSep(s[e - 1]) then e - 1 else LastSepBefore(s, e - 1)
  }

  function FirstSep(s: string): (p: nat)
    ensures p <= |s|
    ensures p < |s| ==> IsFileSep(s[p])
    ensures forall k | 0 <= k < p :: !IsFileSep(s[k])
  {
    if s == "" || IsFileSep(s[0]) then 0 else 1 + FirstSep(s[1..])
  }

  // ---------------------------------------------------------------- changing a path

  /** DeleteRedundantSlashes: of several slashes in a row one stays. */
  function WithoutRedundantSlashes(s: string): string {
    if |s| <= 1 then s
    else
      var front := WithoutRedundantSlashes(s[..|s| - 1]);
      if IsFileSep(s[|s| - 1]) && IsFileSep(s[|s| - 2]) then front else front + [s[|s| - 1]]
  }

  /** The string after ChopLastNode, None where it returns false. */
  function ChopLastNode(path: string): Option<string> {
    var s := WithoutRedundantSlashes(path);
    var sp := LastSep(s);
    if sp == |s| then (if s == "" then None else Some("."))
    else if IsAbsoluteAt(s, 0) && FirstSep(s) == sp then Some(s[..sp + 1])
    else Some(s[..sp])
  }

  function AddSlash(s: string): string {
    if s == "" then "/"
    else if IsFileSep(s[|s| - 1]) then s
    else if '/' !in s && '\\' in s then s + "\\"
    else s + "/"
  }

  /** Chop: without trailing white space. */
  function Chopped(s: string): string {
    if s != "" && IsSpace(s[|s| - 1]) then Chopped(s[..|s| - 1]) else s
  }

  function JoinPath(path: string, leaf: string): Option<string> {
    var base := AddSlash(Chopped(path));
    if |base| + |leaf| > PATH_LIMIT then None else Some(base + leaf)
  }

  // ---------------------------------------------------------------- canonical paths

  predicate NodeStops(s: string, i: nat) {
    i == |s| || (i < |s| && IsFileSep(s[i]))
  }

  // The component that starts at i is "." or "..".
  predicate DotsAt(s: string, i: nat) {
    && i < |s| && s[i] == '.'
    && (NodeStops(s, i + 1) || (i + 1 < |s| && s[i + 1] == '.' && NodeStops(s, i + 2)))
  }

  function NodeEnd(s: string, i: nat): (e: nat)
    requires i <= |s|
    ensures i <= e <= |s|
    ensures i < |s| && !IsFileSep(s[i]) ==> i < e
    ensures forall k | i <= k < e :: !IsFileSep(s[k])
    ensures e < |s| ==> IsFileSep(s[e])
    decreases |s| - i
  {
    if i == |s| || IsFileSep(s[i]) then i else NodeEnd(s, i + 1)
  }

  /** Absolute, single slashes, no slash at the end, no "." or ".." component. */
  ghost predicate Canonical(s: string) {
    && s != "" && IsFileSep(s[0])
    && (|s| > 1 ==> !IsFileSep(s[|s| - 1]))
    && (forall k | 0 < k < |s| :: IsFileSep(s[k]) ==> !IsFileSep(s[k - 1]))
    && (forall k | 0 < k < |s| :: IsFileSep(s[k - 1]) ==> !DotsAt(s, k))
  }

  ghost predicate SingleSlashes(s: string) {
    forall k | 0 < k < |s| :: IsFileSep(s[k]) ==> !IsFileSep(s[k - 1])
  }

  lemma {:induction false} NothingRedundant(s: string)
    requires SingleSlashes(s)
    ensures WithoutRedundantSlashes(s) == s
  {
    if |s| > 1 {
      var front := s[..|s| - 1];
      forall k | 0 < k < |front| ensures IsFileSep(front[k]) ==> !IsFileSep(front[k - 1]) {
        assert front[k] == s[k] && front[k - 1] == s[k - 1];
      }
      NothingRedundant(front);
      assert s == front + [s[|s| - 1]];
    }
  }

  // On an absolute path with single slashes, the last node goes with its slash, but the root stays.
  lemma ChopOnSingleSlashes(s: string)
    requires s != "" && IsFileSep(s[0]) && SingleSlashes(s)
    ensures ChopLastNode(s) == Some(if LastSep(s) == 0 then "/" else s[..LastSep(s)])
  {
    NothingRedundant(s);
    assert QuotesEnd(s, 0) == 0;
    assert LastSep(s) < |s| by {
      assert IsFileSep(s[0]);
    }
    if LastSep(s) == 0 {
      assert s[..1] == "/";
    }
  }
}
