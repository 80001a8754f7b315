/**
 * Bytes and lines. A Go `string` and a Go `[]byte` are both sequences of
 * bytes, so this model gives both the type `seq<byte>`; a byte is a
 * character below 256, which lets ASCII literals such as "MIME-Version: 1.0"
 * stand for their bytes.
 */
module Bytes {

  type byte = c: char | c as int < 256

  const CR: byte := '\r'
  const LF: byte := '\n'
  const CRLF: seq<byte> := "\r\n"

  /** Neither a carriage return nor a line feed occurs in `s`. */
  predicate NoLineBreak(s: seq<byte>)
  {
    forall i | 0 <= i < |s| :: s[i] != CR && s[i] != LF
  }

  lemma NoLineBreakConcat(a: seq<byte>, b: seq<byte>)
    requires NoLineBreak(a) && NoLineBreak(b)
    ensures NoLineBreak(a + b)
  {
    forall i | 0 <= i < |a + b|
      ensures (a + b)[i] != CR && (a + b)[i] != LF
    {
      if i < |a| {
        assert (a + b)[i] == a[i];
      } else {
        assert (a + b)[i] == b[i - |a|];
      }
    }
  }

  /** Each line followed by CRLF, in order. */
  function Lines(ls: seq<seq<byte>>): seq<byte>
  {
    if ls == [] then [] else ls[0] + CRLF + Lines(ls[1..])
  }

  /** The lines one after the other, with nothing between them. */
  function Flatten(ls: seq<seq<byte>>): seq<byte>
  {
    if ls == [] then [] else ls[0] + Flatten(ls[1..])
  }

  /** `s` with every CR and LF byte taken out. */
  function StripLineBreaks(s: seq<byte>): (r: seq<byte>)
    ensures NoLineBreak(r)
    ensures |r| <= |s|
  {
    if s == [] then []
    else if s[0] == CR || s[0] == LF then StripLineBreaks(s[1..])
    else [s[0]] + StripLineBreaks(s[1..])
  }

  lemma StripLineBreaksAppend(a: seq<byte>, b: seq<byte>)
    ensures StripLineBreaks(a + b) == StripLineBreaks(a) + StripLineBreaks(b)
  {
    if a != [] {
      assert (a + b)[0] == a[0] && (a + b)[1..] == a[1..] + b;
      StripLineBreaksAppend(a[1..], b);
      if a[0] != CR && a[0] != LF {
        assert StripLineBreaks(a + b) == [a[0]] + (StripLineBreaks(a[1..]) + StripLineBreaks(b));
      }
    } else {
      assert a + b == b;
    }
  }

  lemma StripLineBreaksNone(s: seq<byte>)
    requires NoLineBreak(s)
    ensures StripLineBreaks(s) == s
  {
    if s != [] {
      StripLineBreaksNone(s[1..]);
    }
  }

  lemma StripLineBreaksCRLF()
    ensures StripLineBreaks(CRLF) == []
  {
    assert CRLF[1..] == [LF];
    assert [LF][1..] == [];
  }

  /** A line without breaks, its CRLF, then more: the line survives as it is. */
  lemma StripLine(line: seq<byte>, more: seq<byte>)
    requires NoLineBreak(line)
    ensures StripLineBreaks(line + CRLF + more) == line + StripLineBreaks(more)
  {
    StripLineBreaksAppend(line + CRLF, more);
    StripLineBreaksAppend(line, CRLF);
    StripLineBreaksNone(line);
    StripLineBreaksCRLF();
    assert line + [] == line;
  }

  /**
   * Taking the line breaks out of CRLF-terminated lines that hold none
   * gives back the lines' bytes run together.
   */
  lemma {:induction false} StripLines(ls: seq<seq<byte>>)
    requires forall k | 0 <= k < |ls| :: NoLineBreak(ls[k])
    ensures StripLineBreaks(Lines(ls)) == Flatten(ls)
  {
    if ls != [] {
      StripLine(ls[0], Lines(ls[1..]));
      StripLines(ls[1..]);
    }
  }
}
