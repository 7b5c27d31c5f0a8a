// The lines of a promised chunk, after files_editline.c: how they are inserted and how they are compared.
module Chunks {
  const CF_BUFSIZE := 4096

  // ---------------------------------------------------------------- the lines of a chunk

  /** Up to the next newline or the end. */
  function LineAt(chunk: string, sp: nat): (line: string)
    requires sp <= |chunk|
    ensures sp + |line| <= |chunk|
    decreases |chunk| - sp
  {
    if sp == |chunk| || chunk[sp] == '\n' then "" else [chunk[sp]] + LineAt(chunk, sp + 1)
  }

  lemma {:induction false} LineAtInWords(chunk: string, sp: nat)
    requires sp <= |chunk|
    ensures var line := LineAt(chunk, sp);
            && line == chunk[sp..sp + |line|] && '\n' !in line
            && (sp + |line| < |chunk| ==> chunk[sp + |line|] == '\n')
    decreases |chunk| - sp
  {
    if sp < |chunk| && chunk[sp] != '\n' {
      LineAtInWords(chunk, sp + 1);
    }
  }

  /** What stands between the newlines; a newline at the end is followed by an empty line. */
  function LinesFrom(chunk: string, sp: nat): seq<string>
    decreases |chunk| + 1 - sp
  {
    if sp > |chunk| then []
    else
      var line := LineAt(chunk, sp);
      [line] + LinesFrom(chunk, sp + |line| + 1)
  }

  function Joined(lines: seq<string>): string {
    if lines == [] then "" else if |lines| == 1 then lines[0] else lines[0] + "\n" + Joined(lines[1..])
  }

  /** The lines are the chunk, cut at its newlines. */
  lemma {:induction false} LinesAreTheChunk(chunk: string, sp: nat)
    requires sp <= |chunk|
    ensures Joined(LinesFrom(chunk, sp)) == chunk[sp..]
    decreases |chunk| - sp
  {
    var line := LineAt(chunk, sp);
    var next := sp + |line| + 1;
    LineAtInWords(chunk, sp);
    if next <= |chunk| {
      LinesAreTheChunk(chunk, next);
      assert chunk[sp..] == line + "\n" + chunk[next..];
    } else {
      assert LinesFrom(chunk, sp) == [line];
    }
  }

  /** They are cut at every newline. */
  lemma {:induction false} LinesHaveNoNewline(chunk: string, sp: nat, k: nat)
    requires k < |LinesFrom(chunk, sp)|
    ensures '\n' !in LinesFrom(chunk, sp)[k]
    decreases k
  {
    if k > 0 {
      LinesHaveNoNewline(chunk, sp + |LineAt(chunk, sp)| + 1, k - 1);
    } else {
      LineAtInWords(chunk, sp);
    }
  }

  // ---------------------------------------------------------------- the lines as inserted and as compared

  /** A line is cut where the buffer is full. */
  function Buffered(line: string): string {
    if |line| < CF_BUFSIZE then line else line[..CF_BUFSIZE - 1]
  }

  /** The pieces that are inserted: the character behind each buffer is skipped, a newline or not. */
  function PiecesFrom(chunk: string, sp: nat): seq<string>
    decreases |chunk| + 1 - sp
  {
    if sp > |chunk| then []
    else
      var buf := Buffered(LineAt(chunk, sp));
      [buf] + PiecesFrom(chunk, sp + |buf| + 1)
  }

  /** The buffer after the next line is read into it: an empty line leaves it as it was. */
  function Reread(chunk: string, sp: nat, buf: string): string
    requires sp <= |chunk|
  {
    if LineAt(chunk, sp) == "" then buf else LineAt(chunk, sp)
  }

  /** The lines that are compared with the file; the length of the buffer is skipped. */
  function ComparedFrom(chunk: string, sp: nat, buf: string): seq<string>
    decreases |chunk| + 1 - sp
  {
    if sp > |chunk| then []
    else
      var line := Reread(chunk, sp, buf);
      [line] + ComparedFrom(chunk, sp + |line| + 1, line)
  }

  function Lines(chunk: string): (lines: seq<string>)
    ensures lines != []
  {
    LinesFrom(chunk, 0)
  }

  function Pieces(chunk: string): (lines: seq<string>)
    ensures lines != []
  {
    PiecesFrom(chunk, 0)
  }

  function Compared(chunk: string): (lines: seq<string>)
    ensures lines != []
  {
    ComparedFrom(chunk, 0, "")
  }

  // ---------------------------------------------------------------- when they are the same

  /** No line is too long, and none is empty after one that is not. */
  predicate Plain(lines: seq<string>) {
    && (forall k | 0 <= k < |lines| :: |lines[k]| < CF_BUFSIZE)
    && forall k | 0 < k < |lines| :: lines[k] == "" ==> lines[k - 1] == ""
  }

  /** Plain, read line by line after a line. */
  predicate PlainAfter(buf: string, lines: seq<string>)
    decreases |lines|
  {
    lines == []
    || (|lines[0]| < CF_BUFSIZE && (lines[0] == "" ==> buf == "") && PlainAfter(lines[0], lines[1..]))
  }

  lemma {:induction false} PlainLineByLine(buf: string, lines: seq<string>)
    ensures PlainAfter(buf, lines) <==> Plain(lines) && (lines != [] && lines[0] == "" ==> buf == "")
    decreases |lines|
  {
    if lines != [] {
      PlainLineByLine(lines[0], lines[1..]);
    }
  }

  lemma HeadsAndTails<T>(x: T, s: seq<T>, y: T, t: seq<T>)
    ensures [x] + s == [y] + t <==> x == y && s == t
  {
    assert ([x] + s)[0] == x && ([x] + s)[1..] == s;
    assert ([y] + t)[0] == y && ([y] + t)[1..] == t;
  }

  lemma {:induction false} PlainChunksAreInsertedLineByLine(chunk: string, sp: nat, buf: string)
    requires PlainAfter(buf, LinesFrom(chunk, sp))
    ensures PiecesFrom(chunk, sp) == LinesFrom(chunk, sp)
    decreases |chunk| + 1 - sp
  {
    if sp <= |chunk| {
      var line := LineAt(chunk, sp);
      PlainChunksAreInsertedLineByLine(chunk, sp + |line| + 1, line);
    }
  }

  lemma {:induction false} PlainChunksAreComparedLineByLine(chunk: string, sp: nat, buf: string)
    requires PlainAfter(buf, LinesFrom(chunk, sp))
    ensures ComparedFrom(chunk, sp, buf) == LinesFrom(chunk, sp)
    decreases |chunk| + 1 - sp
  {
    if sp <= |chunk| {
      var line := LineAt(chunk, sp);
      PlainChunksAreComparedLineByLine(chunk, sp + |line| + 1, line);
    }
  }

  lemma {:induction false} OthersAreNot(chunk: string, sp: nat, buf: string)
    requires !PlainAfter(buf, LinesFrom(chunk, sp))
    ensures ComparedFrom(chunk, sp, buf) != PiecesFrom(chunk, sp)
    decreases |chunk| + 1 - sp
  {
    if sp <= |chunk| {
      var line, compared := LineAt(chunk, sp), Reread(chunk, sp, buf);
      if compared == Buffered(line) {
        OthersAreNot(chunk, sp + |line| + 1, line);
      }
      HeadsAndTails(compared, ComparedFrom(chunk, sp + |compared| + 1, compared),
                    Buffered(line), PiecesFrom(chunk, sp + |Buffered(line)| + 1));
    }
  }

  /** What is compared is what is inserted exactly for plain chunks, and then it is the lines of the chunk. */
  lemma ComparedAsInsertedExactly(chunk: string)
    ensures Compared(chunk) == Pieces(chunk) <==> Plain(Lines(chunk))
    ensures Plain(Lines(chunk)) ==> Pieces(chunk) == Lines(chunk)
  {
    PlainLineByLine("", Lines(chunk));
    if Plain(Lines(chunk)) {
      PlainChunksAreInsertedLineByLine(chunk, 0, "");
      PlainChunksAreComparedLineByLine(chunk, 0, "");
    } else {
      OthersAreNot(chunk, 0, "");
    }
  }

  lemma {:induction false} ItsOneLine(chunk: string, sp: nat, n: nat)
    requires sp + n <= |chunk| && (sp + n < |chunk| ==> chunk[sp + n] == '\n')
    requires forall k | sp <= k < sp + n :: chunk[k] != '\n'
    ensures LineAt(chunk, sp) == chunk[sp..sp + n]
    decreases n
  {
    if n > 0 {
      ItsOneLine(chunk, sp + 1, n - 1);
    }
  }

  /** A chunk without a newline that fits the buffer is one line, either way. */
  lemma OneLineChunks(chunk: string)
    requires '\n' !in chunk
    ensures Lines(chunk) == Compared(chunk) == [chunk]
    ensures |chunk| < CF_BUFSIZE ==> Pieces(chunk) == [chunk]
  {
    ItsOneLine(chunk, 0, |chunk|);
    assert LineAt(chunk, 0) == chunk;
    assert LinesFrom(chunk, |chunk| + 1) == PiecesFrom(chunk, |chunk| + 1) == [];
    assert ComparedFrom(chunk, |chunk| + 1, chunk) == [];
  }

  /** Two lines without a newline that fit the buffer, the second one not empty, are these two lines, either way. */
  lemma TwoLineChunks(a: string, b: string)
    requires '\n' !in a && '\n' !in b && b != "" && |a| < CF_BUFSIZE && |b| < CF_BUFSIZE
    ensures Lines(a + "\n" + b) == Pieces(a + "\n" + b) == Compared(a + "\n" + b) == [a, b]
  {
    var chunk := a + "\n" + b;
    ItsOneLine(chunk, 0, |a|);
    ItsOneLine(chunk, |a| + 1, |b|);
    assert chunk[..|a|] == a && chunk[|a| + 1..] == b;
    assert LineAt(chunk, 0) == a && LineAt(chunk, |a| + 1) == b;
    assert LinesFrom(chunk, |a| + 1) == [b] + LinesFrom(chunk, |chunk| + 1);
    assert LinesFrom(chunk, |chunk| + 1) == [];
    assert Lines(chunk) == [a] + [b];
    ComparedAsInsertedExactly(chunk);
  }

  /** For an empty line the line before it is compared again, and what is skipped can be the next line. */
  lemma AnEmptyLineIsComparedAsTheLineBefore()
    ensures Pieces("a\n\nb") == ["a", "", "b"] && Compared("a\n\nb") == ["a", "a", "a"]
  {
    var chunk := "a\n\nb";
    assert PiecesFrom(chunk, 3) == ["b"] by {
      assert PiecesFrom(chunk, 5) == [] && LineAt(chunk, 3) == "b";
    }
    assert PiecesFrom(chunk, 2) == ["", "b"] by {
      assert LineAt(chunk, 2) == "";
    }
    assert ComparedFrom(chunk, 4, "a") == ["a"] by {
      assert ComparedFrom(chunk, 6, "a") == [] && LineAt(chunk, 4) == "";
    }
    assert ComparedFrom(chunk, 2, "a") == ["a", "a"] by {
      assert LineAt(chunk, 2) == "";
    }
    assert LineAt(chunk, 0) == "a";
  }
}
