// Relative links of files_links.c: the path VerifyRelativeLink writes, and what VerifyLink reads
// back from it.
module RelativeLinks {
  import opened Options
  import opened Paths

  // ---------------------------------------------------------------- CompressPath

  function Placed(dest: string, node: string): Option<string> {
    if node == "." then Some(dest)
    else if node == ".." then ChopLastNode(dest)
    else JoinPath(AddSlash(dest), node)
  }

  function CompressFrom(dest: string, src: string, i: nat): Option<string>
    requires i <= |src|
    decreases |src| - i
  {
    if i == |src| then Some(dest)
    else if IsFileSep(src[i]) then CompressFrom(dest, src, i + 1)
    else
      var e := NodeEnd(src, i);
      if e - i > NODE_LIMIT then None
      else
        match Placed(dest, src[i..e])
        case None => None
        case Some(next) => CompressFrom(next, src, e)
  }

  function RootDirLength(f: string): nat {
    if f != "" && IsFileSep(f[0]) then 1 else 0
  }

  function Compressed(src: string): Option<string> {
    CompressFrom(src[..RootDirLength(src)], src, RootDirLength(src))
  }

  /** The inner loop: the length of the node, unless it is too long. */
  method MeasureNode(src: string, sp: nat) returns (fits: bool, nodelen: nat)
    requires sp < |src|
    ensures fits <==> NodeEnd(src, sp) - sp <= NODE_LIMIT
    ensures fits ==> sp + nodelen == NodeEnd(src, sp)
  {
    ghost var e := NodeEnd(src, sp);
    nodelen := 0;
    while sp + nodelen < |src| && !IsFileSep(src[sp + nodelen])
      invariant sp + nodelen <= e && nodelen <= NODE_LIMIT
    {
      if nodelen >= NODE_LIMIT {
        return false, nodelen;
      }
      nodelen := nodelen + 1;
    }
    assert sp + nodelen == e;
    return true, nodelen;
  }

  method CompressPath(src: string) returns (dest: Option<string>)
    ensures dest == Compressed(src)
    ensures src != "" && src[0] == '/' && |src| <= PATH_LIMIT ==>
              dest == if ShortNodes(src) then Some(PathOf(Walked([], src, 0))) else None
  {
    if src != "" && src[0] == '/' {
      AbsolutePathsAreCompressedExactly(src);
    }
    var text := src[..RootDirLength(src)];
    var sp := RootDirLength(src);
    while sp < |src|
      invariant sp <= |src|
      invariant CompressFrom(text, src, sp) == Compressed(src)
    {
      if IsFileSep(src[sp]) {
        sp := sp + 1;
        continue;
      }
      var fits, nodelen := MeasureNode(src, sp);
      if !fits {
        return None;
      }
      var placed := Placed(text, src[sp..sp + nodelen]);
      if placed.None? {
        return None;
      }
      text := placed.value;
      sp := sp + nodelen;
    }
    return Some(text);
  }

  lemma ChoppingKeepsCanonical(dest: string)
    requires Canonical(dest)
    ensures Canonical(ChopLastNode(dest).value)
  {
    ChopOnSingleSlashes(dest);
    var p := LastSep(dest);
    if p != 0 {
      var up := dest[..p];
      forall k | 0 < k < |up| ensures IsFileSep(up[k - 1]) ==> !DotsAt(up, k) {
        assert DotsAt(up, k) ==> DotsAt(dest, k);
      }
    }
  }

  predicate IsNode(node: string) {
    node != "" && forall k | 0 <= k < |node| :: !IsFileSep(node[k])
  }

  lemma AddingANodeKeepsCanonical(dest: string, node: string)
    requires Canonical(dest) || dest == ""
    requires IsNode(node) && node != "." && node != ".."
    ensures |dest| <= 1 ==> Canonical("/" + node)
    ensures |dest| > 1 ==> Canonical(dest + "/" + node)
  {
    var base := if |dest| <= 1 then "/" else dest + "/";
    var joined := base + node;
    forall k | 0 < k < |joined| ensures IsFileSep(joined[k - 1]) ==> !DotsAt(joined, k) {
      if k < |dest| {
        assert DotsAt(joined, k) ==> DotsAt(dest, k);
      } else if k == |base| {
        DotsOfTheLastNode(base, node);
      }
    }
  }

  lemma DotsOfTheLastNode(base: string, node: string)
    requires IsNode(node)
    ensures DotsAt(base + node, |base|) ==> node == "." || node == ".."
  {
    var joined := base + node;
    assert forall k | 0 <= k < |node| :: joined[|base| + k] == node[k];
  }

  lemma PlacingKeepsCanonical(dest: string, node: string)
    requires Canonical(dest) || (dest == "" && node != "." && node != "..")
    requires IsNode(node)
    ensures Placed(dest, node).Some? ==> Canonical(Placed(dest, node).value)
  {
    if node == ".." {
      ChoppingKeepsCanonical(dest);
    } else if node != "." {
      AddingANodeKeepsCanonical(dest, node);
      JoinedToTheRest(dest, node);
    }
  }

  lemma JoinedToTheRest(dest: string, node: string)
    requires Canonical(dest) || dest == ""
    ensures var placed := JoinPath(AddSlash(dest), node);
            placed.Some? ==> placed.value == if |dest| <= 1 then "/" + node else dest + "/" + node
  {
    if |dest| <= 1 {
      assert "" + "/" == "/" == AddSlash(dest);
      JoinedBehindASlash("", node);
    } else {
      JoinedBehindASlash(dest, node);
    }
  }

  lemma {:induction false} CompressionFromKeepsCanonical(dest: string, src: string, i: nat)
    requires i <= |src|
    requires Canonical(dest) || (dest == "" && i < |src| && !IsFileSep(src[i]) && src[i] != '.')
    ensures CompressFrom(dest, src, i).Some? ==> Canonical(CompressFrom(dest, src, i).value)
    decreases |src| - i
  {
    if i == |src| {
    } else if IsFileSep(src[i]) {
      CompressionFromKeepsCanonical(dest, src, i + 1);
    } else {
      var e := NodeEnd(src, i);
      var node := src[i..e];
      assert node[0] == src[i];
      PlacingKeepsCanonical(dest, node);
      if Placed(dest, node).Some? {
        CompressionFromKeepsCanonical(Placed(dest, node).value, src, e);
      }
    }
  }

  /** Whatever does not begin with a dot is compressed to a canonical absolute path, if at all. */
  lemma CompressionIsCanonical(src: string)
    requires src != "" && src[0] != '.'
    ensures Compressed(src).Some? ==> Canonical(Compressed(src).value)
  {
    assert RootDirLength(src) == 1 ==> src[..1] == "/";
    CompressionFromKeepsCanonical(src[..RootDirLength(src)], src, RootDirLength(src));
  }

  // ---------------------------------------------------------------- what compressing means

  function Rendered(stack: seq<string>): string {
    if stack == [] then "" else Rendered(stack[..|stack| - 1]) + "/" + stack[|stack| - 1]
  }

  /** The path of the directories on the stack. */
  function PathOf(stack: seq<string>): string {
    if stack == [] then "/" else Rendered(stack)
  }

  function Up(stack: seq<string>): seq<string> {
    if stack == [] then [] else stack[..|stack| - 1]
  }

  /** The directories entered when a path is walked from position i: ".." leaves one, the root stays. */
  function Walked(stack: seq<string>, src: string, i: nat): seq<string>
    requires i <= |src|
    decreases |src| - i
  {
    if i == |src| then stack
    else if IsFileSep(src[i]) then Walked(stack, src, i + 1)
    else
      var node := src[i..NodeEnd(src, i)];
      Walked(Entered(stack, node), src, NodeEnd(src, i))
  }

  function Entered(stack: seq<string>, node: string): seq<string> {
    if node == "." then stack else if node == ".." then Up(stack) else stack + [node]
  }

  ghost predicate AreNodes(stack: seq<string>) {
    forall k | 0 <= k < |stack| :: IsNode(stack[k])
  }

  lemma ChoppingLeavesADirectory(stack: seq<string>)
    requires AreNodes(stack) && Canonical(PathOf(stack))
    ensures ChopLastNode(PathOf(stack)) == Some(PathOf(Up(stack)))
  {
    var path := PathOf(stack);
    ChopOnSingleSlashes(path);
    if stack != [] {
      var front, node := Rendered(Up(stack)), stack[|stack| - 1];
      assert IsNode(node) && path[|front|] == '/';
      assert forall k | |front| < k < |path| :: path[k] == node[k - |front| - 1];
      assert LastSep(path) == |front| && path[..|front|] == front;
      if |stack| > 1 {
        assert front != "";
      }
    }
  }

  lemma SlashBehind(stack: seq<string>)
    requires AreNodes(stack) && Canonical(PathOf(stack))
    ensures AddSlash(PathOf(stack)) == Rendered(stack) + "/"
  {
    if stack == [] {
      assert "" + "/" == "/";
    } else {
      assert IsNode(stack[|stack| - 1]);
      assert |Rendered(stack)| >= 2;
    }
  }

  lemma EnteringANode(stack: seq<string>, node: string)
    requires AreNodes(stack) && Canonical(PathOf(stack))
    ensures JoinPath(AddSlash(PathOf(stack)), node).Some?
        ==> JoinPath(AddSlash(PathOf(stack)), node).value == PathOf(stack + [node])
  {
    SlashBehind(stack);
  }

  lemma PlacingEnters(stack: seq<string>, node: string)
    requires AreNodes(stack) && Canonical(PathOf(stack)) && IsNode(node) && Placed(PathOf(stack), node).Some?
    ensures Placed(PathOf(stack), node).value == PathOf(Entered(stack, node))
    ensures AreNodes(Entered(stack, node)) && Canonical(PathOf(Entered(stack, node)))
  {
    PlacedAsEntered(stack, node);
    PlacingKeepsCanonical(PathOf(stack), node);
    NodesStayNodes(stack, node);
  }

  lemma NodesStayNodes(stack: seq<string>, node: string)
    requires AreNodes(stack) && IsNode(node)
    ensures AreNodes(Entered(stack, node))
  {
  }

  lemma PlacedAsEntered(stack: seq<string>, node: string)
    requires AreNodes(stack) && Canonical(PathOf(stack)) && IsNode(node) && Placed(PathOf(stack), node).Some?
    ensures Placed(PathOf(stack), node).value == PathOf(Entered(stack, node))
  {
    if node == ".." {
      ChoppingLeavesADirectory(stack);
    } else if node != "." {
      EnteringANode(stack, node);
    }
  }

  lemma {:induction false} CompressionWalks(stack: seq<string>, src: string, i: nat)
    requires i <= |src| && AreNodes(stack) && Canonical(PathOf(stack))
    ensures CompressFrom(PathOf(stack), src, i).Some?
        ==> CompressFrom(PathOf(stack), src, i).value == PathOf(Walked(stack, src, i))
    decreases |src| - i
  {
    if i == |src| {
    } else if IsFileSep(src[i]) {
      CompressionWalks(stack, src, i + 1);
    } else {
      var e := NodeEnd(src, i);
      var node := src[i..e];
      if Placed(PathOf(stack), node).Some? {
        PlacingEnters(stack, node);
        CompressionWalks(Entered(stack, node), src, e);
      }
    }
  }

  /** A compressed absolute path names the directory that walking the path leads to. */
  lemma CompressedPathsLeadTheSameWay(src: string)
    requires src != "" && IsFileSep(src[0])
    ensures Compressed(src).Some? ==> Compressed(src).value == PathOf(Walked([], src, 0))
  {
    assert src[..1] == "/";
    CompressionWalks([], src, 1);
  }

  // ---------------------------------------------------------------- when there is a compressed path

  /** Between slashes no more than NODE_LIMIT characters stand. */
  ghost predicate ShortNodes(src: string) {
    forall i, j | 0 <= i <= j <= |src| && NoSlashIn(src, i, j) :: j - i <= NODE_LIMIT
  }

  ghost predicate NoSlashIn(src: string, i: nat, j: nat)
    requires j <= |src|
  {
    forall k | i <= k < j :: src[k] != '/'
  }

  lemma EnteredFits(stack: seq<string>, node: string, room: nat)
    requires AreNodes(stack) && Canonical(PathOf(stack)) && IsNode(node)
    requires |Rendered(stack)| + 1 + |node| <= room <= PATH_LIMIT
    ensures Placed(PathOf(stack), node) == Some(PathOf(Entered(stack, node)))
    ensures |Rendered(Entered(stack, node))| <= room
  {
    if node == ".." {
      ChoppingLeavesADirectory(stack);
    } else if node != "." {
      SlashBehind(stack);
      JoinedBehindASlash(Rendered(stack), node);
      RenderedWithANode(stack, node);
    }
  }

  lemma JoinedBehindASlash(front: string, node: string)
    ensures JoinPath(front + "/", node)
         == if |front| + 1 + |node| > PATH_LIMIT then None else Some(front + "/" + node)
  {
    var base := front + "/";
    assert base[|base| - 1] == '/';
    assert Chopped(base) == base && AddSlash(base) == base;
  }

  lemma RenderedWithANode(stack: seq<string>, node: string)
    ensures PathOf(stack + [node]) == Rendered(stack + [node]) == Rendered(stack) + "/" + node
  {
    assert (stack + [node])[..|stack|] == stack;
  }

  /** What has been placed is no longer than what has been read. */
  lemma {:induction false} CompressionSucceeds(stack: seq<string>, src: string, i: nat)
    requires i <= |src| <= PATH_LIMIT && ShortNodes(src)
    requires AreNodes(stack) && Canonical(PathOf(stack)) && |Rendered(stack)| <= i
    requires i < |src| && !IsFileSep(src[i]) ==> |Rendered(stack)| < i
    ensures CompressFrom(PathOf(stack), src, i) == Some(PathOf(Walked(stack, src, i)))
    ensures |Rendered(Walked(stack, src, i))| <= |src|
    decreases |src| - i
  {
    if i == |src| {
    } else if IsFileSep(src[i]) {
      CompressionSucceeds(stack, src, i + 1);
    } else {
      var e := NodeEnd(src, i);
      var node := src[i..e];
      assert NoSlashIn(src, i, e);
      EnteredFits(stack, node, e);
      PlacingEnters(stack, node);
      CompressionSucceeds(Entered(stack, node), src, e);
    }
  }

  /** However it is compressed, a run of more than NODE_LIMIT characters without a slash is refused. */
  lemma {:induction false} ALongNodeIsRefused(dest: string, src: string, i: nat, a: nat, b: nat)
    requires i <= a <= b <= |src| && NoSlashIn(src, a, b) && b - a > NODE_LIMIT
    ensures CompressFrom(dest, src, i) == None
    decreases |src| - i
  {
    if IsFileSep(src[i]) {
      assert i != a;
      ALongNodeIsRefused(dest, src, i + 1, a, b);
    } else {
      var e := NodeEnd(src, i);
      if e - i <= NODE_LIMIT && Placed(dest, src[i..e]).Some? {
        assert a >= e;
        ALongNodeIsRefused(Placed(dest, src[i..e]).value, src, e, a, b);
      }
    }
  }

  /**
   * An absolute path that is not too long is compressed to the path of the directory that walking
   * it leads to, exactly if no node is too long; a node that is too long is refused anyway.
   */
  lemma AbsolutePathsAreCompressedExactly(src: string)
    requires src != "" && src[0] == '/'
    ensures !ShortNodes(src) ==> Compressed(src) == None
    ensures |src| <= PATH_LIMIT ==>
              Compressed(src) == if ShortNodes(src) then Some(PathOf(Walked([], src, 0))) else None
  {
    assert src[..1] == "/";
    if !ShortNodes(src) {
      var a, b :| 0 <= a <= b <= |src| && NoSlashIn(src, a, b) && b - a > NODE_LIMIT;
      ALongNodeIsRefused("/", src, 1, a, b);
    } else if |src| <= PATH_LIMIT {
      CompressionSucceeds([], src, 1);
    }
  }

  lemma WalkedIsNoLonger(src: string)
    requires src != "" && src[0] == '/' && |src| <= PATH_LIMIT && ShortNodes(src)
    ensures |PathOf(Walked([], src, 0))| <= |src|
  {
    CompressionSucceeds([], src, 1);
  }

  lemma OneNodeRead(dest: string, src: string, i: nat, e: nat, node: string)
    requires i < |src| && !IsFileSep(src[i]) && e == NodeEnd(src, i) && node == src[i..e]
    ensures CompressFrom(dest, src, i) ==
            if |node| > NODE_LIMIT || Placed(dest, node).None? then None
            else CompressFrom(Placed(dest, node).value, src, e)
  {
  }

  /** longer is src behind one character more. */
  ghost predicate Behind(longer: string, src: string) {
    |longer| == |src| + 1 && forall k | 0 <= k < |src| :: longer[k + 1] == src[k]
  }

  lemma {:induction false} ReadBehindACharacter(dest: string, src: string, longer: string, i: nat)
    requires i <= |src| && Behind(longer, src)
    ensures CompressFrom(dest, longer, i + 1) == CompressFrom(dest, src, i)
    decreases |src| - i
  {
    if i == |src| {
      assert CompressFrom(dest, longer, i + 1) == Some(dest);
    } else if IsFileSep(src[i]) {
      assert longer[i + 1] == src[i];
      ReadBehindACharacter(dest, src, longer, i + 1);
    } else {
      var e := NodeEnd(src, i);
      var node := src[i..e];
      NodeBehindACharacter(src, longer, i);
      OneNodeRead(dest, src, i, e, node);
      OneNodeRead(dest, longer, i + 1, e + 1, node);
      if |node| <= NODE_LIMIT && Placed(dest, node).Some? {
        ReadBehindACharacter(Placed(dest, node).value, src, longer, e);
      }
    }
  }

  lemma {:induction false} NodeBehindACharacter(src: string, longer: string, i: nat)
    requires i <= |src| && Behind(longer, src)
    ensures NodeEnd(longer, i + 1) == NodeEnd(src, i) + 1
    ensures longer[i + 1..NodeEnd(src, i) + 1] == src[i..NodeEnd(src, i)]
    ensures i < |src| ==> longer[i + 1] == src[i]
    decreases |src| - i
  {
    if i < |src| {
      assert longer[i + 1] == src[i];
      if !IsFileSep(src[i]) {
        NodeBehindACharacter(src, longer, i + 1);
      }
    }
  }

  /** A path without a slash or a dot in front is compressed as if it began at the root. */
  lemma TakenFromTheRoot(src: string)
    requires src != "" && src[0] != '/' && src[0] != '.'
    ensures Compressed(src) == Compressed("/" + src)
  {
    var e := NodeEnd(src, 0);
    var node := src[..e];
    assert src[..0] == "" && ("/" + src)[..1] == "/";
    ReadBehindACharacter("/", src, "/" + src, 0);
    assert node[0] == src[0];
    assert Placed("", src[0..e]) == JoinPath("/", src[0..e]) == Placed("/", src[0..e]);
  }

  lemma WalkedOverANode(stack: seq<string>, src: string, i: nat, e: nat)
    requires i < e <= |src| && IsFileSep(src[i]) && IsNode(src[i + 1..e]) && (e < |src| ==> IsFileSep(src[e]))
    requires i + 1 < e
    ensures Walked(stack, src, i) == Walked(Entered(stack, src[i + 1..e]), src, e)
  {
    forall k | i < k < e ensures !IsFileSep(src[k]) {
      assert src[i + 1..e][k - i - 1] == src[k];
    }
    assert NodeEnd(src, i + 1) == e;
  }

  // A run of characters without a slash lies between two of the slashes at 0, m and n, or behind.
  lemma ShortBetweenSlashes(src: string, m: nat, n: nat)
    requires 0 < m < n < |src| && src[0] == '/' && src[m] == '/' && src[n] == '/'
    requires m <= NODE_LIMIT + 1 && n - m <= NODE_LIMIT + 1 && |src| - n <= NODE_LIMIT + 1
    ensures ShortNodes(src)
  {
    forall i, j | 0 <= i <= j <= |src| && NoSlashIn(src, i, j) ensures j - i <= NODE_LIMIT {
      if j - i > NODE_LIMIT {
        assert false;
      }
    }
  }

  lemma ThereAndUp(src: string, m: nat, n: nat, a: string, b: string)
    requires 1 < m && n == m + 3 < |src| - 1 && src[0] == '/' && src[m] == '/' && src[n] == '/'
    requires src[1..m] == a && src[m + 1..n] == ".." && src[n + 1..|src|] == b && IsNode(a) && IsNode(b)
    requires a != "." && a != ".." && b != "." && b != ".."
    ensures Walked([], src, 0) == [b]
  {
    WalkedInto([], src, 0, m, a);
    assert [] + [a] == [a];
    WalkedOverANode([a], src, m, n);
    assert Up([a]) == [];
    WalkedInto([], src, n, |src|, b);
    assert [] + [b] == [b];
  }

  lemma WalkedInto(stack: seq<string>, src: string, i: nat, e: nat, node: string)
    requires i + 1 < e <= |src| && IsFileSep(src[i]) && src[i + 1..e] == node && (e < |src| ==> IsFileSep(src[e]))
    requires IsNode(node) && node != "." && node != ".."
    ensures Walked(stack, src, i) == Walked(stack + [node], src, e)
  {
    WalkedOverANode(stack, src, i, e);
  }

  /** A directory that is entered and left does not show. */
  lemma EnteredAndLeft(a: string, b: string)
    requires IsNode(a) && IsNode(b) && a != "." && a != ".." && b != "." && b != ".."
    requires |a| <= NODE_LIMIT && |b| <= NODE_LIMIT
    ensures Compressed("/" + a + "/../" + b) == Some("/" + b)
  {
    var src := "/" + a + "/../" + b;
    var m := |a| + 1;
    assert src[m + 1..m + 3] == ".." && src[1..m] == a && src[m + 4..] == b;
    ShortBetweenSlashes(src, m, m + 3);
    ThereAndUp(src, m, m + 3, a, b);
    assert Rendered([]) == "" && [b][..0] == [] && "" + "/" == "/";
    assert Rendered([b]) == "/" + b;
    AbsolutePathsAreCompressedExactly(src);
  }

  // ---------------------------------------------------------------- the relative path

  /** The character at i; None is the terminator, which is the last thing a loop may look at. */
  function CharAt(s: string, i: nat): Option<char>
    requires i <= |s|
  {
    if i == |s| then None else Some(s[i])
  }

  /** How many separators stand in s[i..e]. */
  function Seps(s: string, i: nat, e: nat): nat
    requires e <= |s|
  {
    if e <= i then 0 else Seps(s, i, e - 1) + if IsFileSep(s[e - 1]) then 1 else 0
  }

  function Ups(n: nat): string {
    if n == 0 then "" else "../" + Ups(n - 1)
  }

  /** The last position from m down where both strings go on absolutely. */
  function Anchor(s: string, d: string, m: nat): (k: nat)
    requires m <= |s| && m <= |d|
    requires IsAbsoluteAt(s, 0) && IsAbsoluteAt(d, 0)
    ensures k <= m && IsAbsoluteAt(s, k) && IsAbsoluteAt(d, k)
    ensures forall j | k < j <= m :: !(IsAbsoluteAt(s, j) && IsAbsoluteAt(d, j))
  {
    if IsAbsoluteAt(s, m) && IsAbsoluteAt(d, m) then m else Anchor(s, d, m - 1)
  }

  /** The first position where two different strings differ. */
  function Mismatch(s: string, d: string): (m: nat)
    requires s != d
    ensures m <= |s| && m <= |d| && CharAt(s, m) != CharAt(d, m)
    ensures s[..m] == d[..m]
  {
    if s == "" || d == "" || s[0] != d[0] then 0
    else
      assert s == [s[0]] + s[1..] && d == [d[0]] + d[1..];
      var m := 1 + Mismatch(s[1..], d[1..]);
      assert s[..m] == [s[0]] + s[1..][..m - 1] && d[..m] == [d[0]] + d[1..][..m - 1];
      m
  }

  /** One "../" per directory between the anchor k and the link, then the rest of the target. */
  function LinkText(s: string, d: string, k: nat): Option<string>
    requires k < |s| && k <= |d|
  {
    var ups := Seps(d, k, |d|);
    var text := "./" + Ups(if ups == 0 then 0 else ups - 1) + s[k + 1..];
    if |text| > PATH_LIMIT then None else Some(text)
  }

  lemma {:induction false} UpsEndInASlash(n: nat)
    ensures Ups(n + 1) == Ups(n) + "../"
    ensures |Ups(n)| == 3 * n
  {
    if n > 0 {
      UpsEndInASlash(n - 1);
    }
  }

  // Text that ends in a slash is joined as it is.
  lemma JoiningBelow(n: nat, leaf: string)
    ensures |"./" + Ups(n)| == 2 + 3 * n
    ensures JoinPath("./" + Ups(n), leaf)
         == if 2 + 3 * n + |leaf| > PATH_LIMIT then None else Some("./" + Ups(n) + leaf)
  {
    UpsEndInASlash(n);
    if n > 0 {
      UpsEndInASlash(n - 1);
    }
    var path := "./" + Ups(n);
    assert path[|path| - 1] == '/';
  }

  /** The beginning of a link text that goes up n directories. */
  function StepsUp(n: nat): string {
    "./" + Ups(n)
  }

  lemma OneStepUp(n: nat)
    ensures JoinPath(StepsUp(n), "../") == if 2 + 3 * (n + 1) > PATH_LIMIT then None else Some(StepsUp(n + 1))
  {
    JoiningBelow(n, "../");
    UpsEndInASlash(n);
    assert "./" + Ups(n) + "../" == "./" + (Ups(n) + "../");
  }

  lemma {:induction false} MismatchIsFirst(s: string, d: string, m: nat)
    requires s != d && m <= |s| && m <= |d| && s[..m] == d[..m] && CharAt(s, m) != CharAt(d, m)
    ensures m == Mismatch(s, d)
  {
    var first := Mismatch(s, d);
    assert forall j | 0 <= j < m :: s[j] == s[..m][j] && d[j] == d[..m][j];
    assert forall j | 0 <= j < first :: s[j] == s[..first][j] && d[j] == d[..first][j];
  }

  lemma SlashIsAbsolute(s: string, i: nat)
    requires i < |s| && s[i] == '/'
    ensures IsAbsoluteAt(s, i)
  {
    assert QuotesEnd(s, i) == i;
  }

  lemma CompressedGoesOnAbsolutely(source: string)
    requires source != "" && source[0] != '.'
    ensures Compressed(source).Some? ==> IsAbsoluteAt(Compressed(source).value, 0)
  {
    CompressionIsCanonical(source);
    if Compressed(source).Some? {
      SlashIsAbsolute(Compressed(source).value, 0);
    }
  }

  /** The text of the link, if one is made. */
  function WrittenLink(destination: string, source: string): Option<string>
    requires IsAbsoluteAt(destination, 0) && source != ""
  {
    if source[0] == '.' then Some(source)
    else
      CompressedGoesOnAbsolutely(source);
      match Compressed(source)
      case None => None
      case Some(s) =>
        if s == destination then None
        else LinkText(s, destination, Anchor(s, destination, Mismatch(s, destination)))
  }

  /**
   * VerifyRelativeLink up to the call of VerifyLink. Both scans stay inside their strings, the
   * first because the strings differ, the second because both begin absolutely.
   */
  method VerifyRelativeLink(destination: string, source: string) returns (link: Option<string>)
    requires IsAbsoluteAt(destination, 0) && source != ""
    ensures link == WrittenLink(destination, source)
  {
    if source[0] == '.' {
      return Some(source);
    }
    var compressed := CompressPath(source);
    if compressed.None? {
      return None;
    }
    var linkto := compressed.value;
    CompressedGoesOnAbsolutely(source);
    if linkto == destination {
      return None;
    }
    link := RelativePath(destination, linkto);
  }

  lemma {:induction false} SepsAreCounted(s: string, i: nat, e: nat)
    requires e <= |s|
    ensures Seps(s, i, e) <= e
  {
    if e > i {
      SepsAreCounted(s, i, e - 1);
    }
  }

  lemma TextThatFits(s: string, d: string, k: nat)
    requires k < |s| && k <= |d|
    ensures var up := if Seps(d, k, |d|) == 0 then 0 else Seps(d, k, |d|) - 1;
            LinkText(s, d, k) ==
            if 2 + 3 * up + |s| - (k + 1) > PATH_LIMIT then None else Some("./" + Ups(up) + s[k + 1..])
  {
    JoiningBelow(if Seps(d, k, |d|) == 0 then 0 else Seps(d, k, |d|) - 1, s[k + 1..]);
  }

  /**
   * A target that begins with a dot is the text. For an absolute one that is not too long and has no
   * node that is too long a link is made exactly if it does not lead to the link's own path and the
   * text fits: the steps up, and the rest behind the last position where both paths go on absolutely.
   */
  lemma LinkIsMadeExactly(d: string, source: string)
    requires IsAbsoluteAt(d, 0) && source != ""
    ensures source[0] == '.' ==> WrittenLink(d, source) == Some(source)
    ensures source[0] == '/' && !ShortNodes(source) ==> WrittenLink(d, source) == None
    ensures source[0] == '/' && |source| <= PATH_LIMIT && ShortNodes(source) ==>
              var s := PathOf(Walked([], source, 0));
              if s == d then WrittenLink(d, source) == None
              else
                IsAbsoluteAt(s, 0) &&
                var k := Anchor(s, d, Mismatch(s, d));
                var up := if Seps(d, k, |d|) == 0 then 0 else Seps(d, k, |d|) - 1;
                if 2 + 3 * up + |s| - (k + 1) > PATH_LIMIT then WrittenLink(d, source) == None
                else WrittenLink(d, source) == Some("./" + Ups(up) + s[k + 1..])
  {
    if source[0] == '/' {
      AbsolutePathsAreCompressedExactly(source);
      if |source| <= PATH_LIMIT && ShortNodes(source) {
        var s := PathOf(Walked([], source, 0));
        LinkToACompressedPath(d, source, s);
        if s != d {
          TextThatFits(s, d, Anchor(s, d, Mismatch(s, d)));
        }
      }
    }
  }

  lemma LinkToACompressedPath(d: string, source: string, s: string)
    requires IsAbsoluteAt(d, 0) && source != "" && source[0] == '/' && Compressed(source) == Some(s)
    ensures IsAbsoluteAt(s, 0)
    ensures WrittenLink(d, source) == if s == d then None else LinkText(s, d, Anchor(s, d, Mismatch(s, d)))
  {
    CompressedGoesOnAbsolutely(source);
  }

  /** Short paths always get their link, unless the target is the link's own path. */
  lemma ShortLinksAreMade(d: string, source: string)
    requires IsAbsoluteAt(d, 0) && source != "" && source[0] == '/' && ShortNodes(source)
    requires |source| + 3 * |d| <= PATH_LIMIT
    ensures WrittenLink(d, source).Some? <==> PathOf(Walked([], source, 0)) != d
  {
    LinkIsMadeExactly(d, source);
    WalkedIsNoLonger(source);
    var s := PathOf(Walked([], source, 0));
    if s != d {
      var k := Anchor(s, d, Mismatch(s, d));
      SepsAreCounted(d, k, |d|);
    }
  }

  method RelativePath(destination: string, linkto: string) returns (link: Option<string>)
    requires IsAbsoluteAt(destination, 0) && IsAbsoluteAt(linkto, 0) && linkto != destination
    ensures link == LinkText(linkto, destination, Anchor(linkto, destination, Mismatch(linkto, destination)))
  {
    var common := 0;
    while CharAt(linkto, common) == CharAt(destination, common)
      invariant common <= |linkto| && common <= |destination|
      invariant linkto[..common] == destination[..common]
      decreases |linkto| - common
    {
      assert linkto[..common + 1] == linkto[..common] + [linkto[common]];
      assert destination[..common + 1] == destination[..common] + [destination[common]];
      common := common + 1;
    }
    MismatchIsFirst(linkto, destination, common);
    ghost var m := common;
    while !(IsAbsoluteAt(linkto, common) && IsAbsoluteAt(destination, common))
      invariant 0 <= common <= m && Anchor(linkto, destination, common) == Anchor(linkto, destination, m)
      decreases common
    {
      common := common - 1;
    }
    link := ClimbAndDescend(destination, common, linkto);
  }

  // The text: as many "../" as there are directories between the anchor and the link.
  method ClimbAndDescend(destination: string, common: nat, linkto: string) returns (link: Option<string>)
    requires common <= |destination| && common < |linkto|
    ensures link == LinkText(linkto, destination, common)
  {
    var levels, sp := 0, common;
    while sp < |destination|
      invariant common <= sp <= |destination| && levels == Seps(destination, common, sp)
    {
      if IsFileSep(destination[sp]) {
        levels := levels + 1;
      }
      sp := sp + 1;
    }
    var buff := Climb(levels);
    JoiningBelow(if levels == 0 then 0 else levels - 1, linkto[common + 1..]);
    if buff.None? {
      return None;
    }
    link := JoinPath(buff.value, linkto[common + 1..]);
  }

  method Climb(count: nat) returns (buff: Option<string>)
    ensures var ups := if count == 0 then 0 else count - 1;
            buff == if ups > 0 && 2 + 3 * ups > PATH_LIMIT then None else Some(StepsUp(ups))
  {
    buff := Some("./");
    assert StepsUp(0) == "./";
    ghost var n := 0;
    var levels := count - 1;
    while levels > 0
      invariant levels == count - 1 - n && (n > 0 ==> n <= count - 1 && 2 + 3 * n <= PATH_LIMIT)
      invariant buff == Some(StepsUp(n))
    {
      OneStepUp(n);
      buff := JoinPath(buff.value, "../");
      if buff.None? {
        return;
      }
      n := n + 1;
      levels := levels - 1;
    }
  }

  // ---------------------------------------------------------------- reading a relative link

  predicate HasAt(s: string, i: nat, word: string)
    requires i <= |s|
  {
    i + |word| <= |s| && s[i..i + |word|] == word
  }

  /** Where the "../" and "./" in front of a relative link end, and how many nodes they drop. */
  function Skipped(relto: string, i: nat, pop: nat): (r: (nat, nat))
    requires i <= |relto|
    ensures r.0 <= |relto|
    decreases |relto| - i
  {
    if HasAt(relto, i, "../") then Skipped(relto, i + 3, pop + 1)
    else if HasAt(relto, i, "./") then Skipped(relto, i + 2, pop)
    else (i, pop)
  }

  /** ChopLastNode pop times; the path stays where it refuses. */
  function Popped(path: string, pop: nat): string
    decreases pop
  {
    if pop == 0 then path
    else Popped(match ChopLastNode(path) case None => path case Some(up) => up, pop - 1)
  }

  function AbsoluteLink(from: string, relto: string): string {
    var (rest, pop) := Skipped(relto, 0, 1);
    AddSlash(Popped(from, pop)) + relto[rest..]
  }

  method DropNodes(from: string, count: nat) returns (destination: string)
    ensures destination == Popped(from, count)
  {
    destination := from;
    var pop := count;
    while pop > 0
      invariant Popped(destination, pop) == Popped(from, count)
    {
      var chopped := ChopLastNode(destination);
      if chopped.Some? {
        destination := chopped.value;
      }
      pop := pop - 1;
    }
  }

  method AbsLinkPath(from: string, relto: string) returns (destination: string)
    ensures destination == AbsoluteLink(from, relto)
  {
    var pop := 1;
    var sp := 0;
    while sp < |relto|
      invariant sp <= |relto| && Skipped(relto, sp, pop) == Skipped(relto, 0, 1)
    {
      if HasAt(relto, sp, "../") {
        pop := pop + 1;
        sp := sp + 3;
      } else if HasAt(relto, sp, "./") {
        sp := sp + 2;
      } else {
        break;
      }
    }
    assert Skipped(relto, sp, pop) == (sp, pop);
    destination := DropNodes(from, pop);
    if |destination| == 0 {
      destination := "/";
    } else {
      destination := AddSlash(destination);
    }
    destination := destination + relto[sp..];
  }

  /** The path whose existence VerifyLink checks before it makes the link. */
  method LinkTarget(destination: string, source: string) returns (absto: string)
    ensures absto == TargetOf(destination, source)
  {
    var to := source;
    if !IsAbsoluteAt(source, 0) && (source == "" || source[0] != '.') {
      to := "./" + source;
    }
    if !IsAbsoluteAt(to, 0) {
      absto := AbsLinkPath(destination, to);
    } else {
      absto := to;
    }
  }

  function TargetOf(destination: string, source: string): string {
    if IsAbsoluteAt(source, 0) then source
    else if source != "" && source[0] == '.' then AbsoluteLink(destination, source)
    else AbsoluteLink(destination, "./" + source)
  }

  // ---------------------------------------------------------------- dropping nodes

  lemma {:induction false} SepsOfAPrefix(d: string, k: nat, p: nat, e: nat)
    requires e <= p <= |d|
    ensures Seps(d[..p], k, e) == Seps(d, k, e)
  {
    if e > k {
      SepsOfAPrefix(d, k, p, e - 1);
    }
  }

  lemma {:induction false} NoSeps(d: string, k: nat, b: nat, e: nat)
    requires k <= b <= e <= |d| && forall j | b <= j < e :: !IsFileSep(d[j])
    ensures Seps(d, k, e) == Seps(d, k, b)
  {
    if b < e {
      NoSeps(d, k, b, e - 1);
    }
  }

  // What remains above the last separator p.
  lemma OneSepLess(d: string, k: nat, p: nat)
    requires k <= p < |d| && IsFileSep(d[p]) && forall j | p < j < |d| :: !IsFileSep(d[j])
    requires SingleSlashes(d)
    ensures Seps(d, k, |d|) == 1 + Seps(d[..p], k, p) && SingleSlashes(d[..p])
  {
    NoSeps(d, k, p + 1, |d|);
    SepsOfAPrefix(d, k, p, p);
    var up := d[..p];
    forall j | 0 < j < |up| ensures IsFileSep(up[j]) ==> !IsFileSep(up[j - 1]) {
      assert up[j] == d[j] && up[j - 1] == d[j - 1];
    }
  }

  function DirAbove(d: string, q: nat): string
    requires q <= |d|
  {
    if q == 0 then "/" else d[..q]
  }

  lemma DroppingOne(d: string, n: nat)
    requires d != "" && IsFileSep(d[0]) && SingleSlashes(d)
    ensures LastSep(d) < |d| && Popped(d, 1 + n) == Popped(DirAbove(d, LastSep(d)), n)
  {
    assert LastSep(d) < |d|;
    ChopOnSingleSlashes(d);
  }

  /** Dropping one node per separator from k on leads to the last directory above k. */
  lemma {:induction false} DroppingNodes(d: string, k: nat, q: nat)
    requires k <= q < |d| && IsFileSep(d[0]) && SingleSlashes(d)
    requires IsFileSep(d[q]) && forall j | k <= j < q :: !IsFileSep(d[j])
    ensures Seps(d, k, |d|) > 0
    ensures Popped(d, Seps(d, k, |d|)) == DirAbove(d, q)
    decreases |d|
  {
    var p := LastSep(d);
    assert p < |d| && p >= q;
    OneSepLess(d, k, p);
    DroppingOne(d, Seps(d[..p], k, p));
    if p == q {
      NoSeps(d[..p], k, k, q);
    } else {
      DroppingNodes(d[..p], k, q);
      assert d[..p][..q] == d[..q];
    }
  }

  lemma NoStepAt(s: string, i: nat)
    requires i <= |s| && (i < |s| ==> s[i] != '.')
    ensures !HasAt(s, i, "../") && !HasAt(s, i, "./")
  {
    var up, here := "../", "./";
    assert up[0] == '.' && here[0] == '.';
    assert i + 3 <= |s| ==> s[i..i + 3][0] == s[i];
    assert i + 2 <= |s| ==> s[i..i + 2][0] == s[i];
  }

  lemma NoStepUpAt(s: string, i: nat)
    requires i + 1 < |s| && s[i + 1] != '.'
    ensures !HasAt(s, i, "../")
  {
    var up := "../";
    assert up[1] == '.';
    assert i + 3 <= |s| ==> s[i..i + 3][1] == s[i + 1];
  }

  /** A relative target without steps in front is taken from the directory of the link. */
  lemma TakenFromTheDirectory(d: string, leaf: string)
    requires d != "" && IsFileSep(d[0]) && SingleSlashes(d)
    requires !IsAbsoluteAt(leaf, 0) && (leaf == "" || leaf[0] != '.')
    ensures LastSep(d) < |d| && TargetOf(d, leaf) == d[..LastSep(d) + 1] + leaf
  {
    var relto, p := "./" + leaf, LastSep(d);
    DroppingOne(d, 0);
    assert relto[0] == '.' && relto[1] == '/' && relto[2..] == leaf;
    assert forall k | 2 <= k < |relto| :: relto[k] == leaf[k - 2];
    NoStepAt(relto, 2);
    assert Skipped(relto, 2, 1) == (2, 1);
    assert relto[0..2] == "./";
    NoStepUpAt(relto, 0);
    if p == 0 {
      assert d[..1] == "/";
    } else {
      assert d[..p][0] == '/' && d[..p + 1] == d[..p] + "/";
    }
  }
}
