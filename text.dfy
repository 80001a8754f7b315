/**
 * The two library routines `Run` in cmd/send.go reads the recipient file
 * with: `bufio.Scanner` splitting with `bufio.ScanLines`, and
 * `strings.TrimSpace` restricted to ASCII white space.
 */
module Text {
  import opened Bytes
  import opened Wrappers

  /** ASCII white space as `strings.TrimSpace` knows it: tab, LF, VT, FF, CR and space. */
  predicate IsSpace(c: byte)
  {
    c == ' ' || 9 <= c as int <= 13
  }

  predicate AllSpace(s: seq<byte>)
  {
    forall k | 0 <= k < |s| :: IsSpace(s[k])
  }

  /** `s` without its leading white space. */
  function TrimLeft(s: seq<byte>): (r: seq<byte>)
    ensures |r| <= |s| && r == s[|s| - |r|..]
    ensures AllSpace(s[..|s| - |r|])
    ensures r == [] || !IsSpace(r[0])
  {
    if s != [] && IsSpace(s[0]) then
      var r := TrimLeft(s[1..]);
      assert s[..|s| - |r|] == [s[0]] + s[1..][..|s| - 1 - |r|];
      r
    else s
  }

  /** `s` without its trailing white space. */
  function TrimRight(s: seq<byte>): (r: seq<byte>)
    ensures |r| <= |s| && r == s[..|r|]
    ensures AllSpace(s[|r|..])
    ensures r == [] || !IsSpace(r[|r| - 1])
  {
    if s != [] && IsSpace(s[|s| - 1]) then
      var r := TrimRight(s[..|s| - 1]);
      assert s[|r|..] == s[..|s| - 1][|r|..] + [s[|s| - 1]];
      r
    else s
  }

  /** `strings.TrimSpace`: `s` without the white space at both ends; what is left starts and ends with a non-space byte, or is empty. */
  function TrimSpace(s: seq<byte>): (r: seq<byte>)
    ensures |r| <= |s|
    ensures r == [] || (!IsSpace(r[0]) && !IsSpace(r[|r| - 1]))
  {
    TrimRight(TrimLeft(s))
  }

  /** What `TrimSpace` keeps is an infix of `s` with only white space around it. */
  lemma TrimSpaceInfix(s: seq<byte>)
    ensures var r := TrimSpace(s);
      exists i | 0 <= i <= |s| - |r| :: s[i..i + |r|] == r && AllSpace(s[..i]) && AllSpace(s[i + |r|..])
  {
    var left := TrimLeft(s);
    var r := TrimRight(left);
    var i := |s| - |left|;
    assert s[i..i + |r|] == r;
    assert s[i + |r|..] == left[|r|..];
  }

  /** Trimming twice trims nothing more. */
  lemma TrimSpaceIdempotent(s: seq<byte>)
    ensures TrimSpace(TrimSpace(s)) == TrimSpace(s)
  {
    var t := TrimSpace(s);
    if t != [] {
      assert TrimLeft(t) == t;
      assert TrimRight(t) == t;
    }
  }

  /** A line trims to nothing exactly when it is white space only. */
  lemma TrimSpaceEmpty(s: seq<byte>)
    ensures TrimSpace(s) == [] <==> AllSpace(s)
  {
    if AllSpace(s) {
      AllSpaceTrimsAway(s);
    }
    if TrimSpace(s) == [] {
      var left := TrimLeft(s);
      assert left[0..] == left;
      assert left == [];
      assert s[..|s|] == s;
    }
  }

  lemma {:induction false} AllSpaceTrimsAway(s: seq<byte>)
    requires AllSpace(s)
    ensures TrimLeft(s) == []
    ensures TrimSpace(s) == []
  {
    if s != [] {
      AllSpaceTrimsAway(s[1..]);
    }
  }

  // ------------------------------------------------------------ bufio.ScanLines

  /** The position of the first LF in `s`. */
  function IndexOfLF(s: seq<byte>): (r: Option<nat>)
    ensures r.Some? ==> r.value < |s| && s[r.value] == LF && forall k | 0 <= k < r.value :: s[k] != LF
    ensures r.None? ==> forall k | 0 <= k < |s| :: s[k] != LF
  {
    if s == [] then None
    else if s[0] == LF then Some(0)
    else match IndexOfLF(s[1..])
      case None => None
      case Some(i) => Some(i + 1)
  }

  /** `dropCR`: one trailing CR is removed. */
  function DropCR(s: seq<byte>): (r: seq<byte>)
    ensures r == s || (s == r + [CR])
  {
    if |s| > 0 && s[|s| - 1] == CR then s[..|s| - 1] else s
  }

  /**
   * One step of `bufio.ScanLines` on the unread input `data` at the end of
   * the file: the next line and how many bytes it consumes, up to and
   * including its LF; the last line may lack the LF.
   */
  function ScanToken(data: seq<byte>): (r: (seq<byte>, nat))
    requires data != []
    ensures 0 < r.1 <= |data|
  {
    match IndexOfLF(data)
    case Some(i) => (DropCR(data[..i]), i + 1)
    case None => (DropCR(data), |data|)
  }

  /** The lines a `bufio.Scanner` with `ScanLines` yields, in order. */
  function ScanLines(data: seq<byte>): seq<seq<byte>>
    decreases |data|
  {
    if data == [] then []
    else
      var (line, advance) := ScanToken(data);
      [line] + ScanLines(data[advance..])
  }

  /** The scanner yields the next line, then the lines of what that line leaves unread. */
  lemma ScanLinesStep(data: seq<byte>)
    requires data != []
    ensures ScanLines(data) == [ScanToken(data).0] + ScanLines(data[ScanToken(data).1..])
  {
  }

  /** The lines, each followed by LF. */
  function JoinLines(lines: seq<seq<byte>>): seq<byte>
  {
    if lines == [] then [] else lines[0] + [LF] + JoinLines(lines[1..])
  }

  /** A line as a file holds it: no LF inside, no CR at its end. */
  predicate PlainLine(s: seq<byte>)
  {
    (forall k | 0 <= k < |s| :: s[k] != LF) && (s == [] || s[|s| - 1] != CR)
  }

  /** Scanning a file written line by line gives back exactly those lines, in order. */
  lemma {:induction false} ScanJoinedLines(lines: seq<seq<byte>>)
    requires forall k | 0 <= k < |lines| :: PlainLine(lines[k])
    ensures ScanLines(JoinLines(lines)) == lines
  {
    if lines != [] {
      var data := JoinLines(lines);
      var l := lines[0];
      assert data == l + [LF] + JoinLines(lines[1..]);
      assert data[|l|] == LF;
      assert forall k | 0 <= k < |l| :: data[k] == l[k];
      assert IndexOfLF(data) == Some(|l|);
      assert data[..|l|] == l;
      assert data[|l| + 1..] == JoinLines(lines[1..]);
      ScanJoinedLines(lines[1..]);
    }
  }

  /** A CRLF file scans like the same file with LF line ends. */
  lemma {:induction false} ScanCRLFLines(lines: seq<seq<byte>>)
    requires forall k | 0 <= k < |lines| :: PlainLine(lines[k])
    ensures ScanLines(Lines(lines)) == lines
  {
    if lines != [] {
      var data := Lines(lines);
      var l := lines[0];
      assert data == (l + [CR]) + [LF] + Lines(lines[1..]);
      assert forall k | 0 <= k < |l| + 1 :: data[k] == (l + [CR])[k];
      assert data[|l| + 1] == LF;
      assert IndexOfLF(data) == Some(|l| + 1);
      assert data[..|l| + 1] == l + [CR];
      assert data[|l| + 2..] == Lines(lines[1..]);
      ScanCRLFLines(lines[1..]);
    }
  }
}
