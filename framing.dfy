/**
 * How main in ledsrv.cpp cuts its input into request lines: the chunk read
 * from the FIFO is appended to the leftover text as a C string, every
 * '\n'-terminated line is a request, and the unterminated tail is kept for
 * the next read.
 */
module Framing {

  import opened Wrappers

  /** A string holds no line terminator. */
  predicate NoNewline(s: string) {
    forall k :: 0 <= k < |s| ==> s[k] != '\n'
  }

  /**
   * What `accum + buf` appends of a chunk: buf is a NUL-terminated C string,
   * so everything from the chunk's first NUL on is dropped.
   */
  function CString(chunk: string): (s: string)
    ensures |s| <= |chunk| && s == chunk[..|s|]
    ensures forall k :: 0 <= k < |s| ==> s[k] != '\0'
    ensures |s| < |chunk| ==> chunk[|s|] == '\0'
  {
    if chunk == [] || chunk[0] == '\0' then []
    else [chunk[0]] + CString(chunk[1..])
  }

  /** A chunk without a NUL is appended whole. */
  lemma CStringWhole(chunk: string)
    requires forall k :: 0 <= k < |chunk| ==> chunk[k] != '\0'
    ensures CString(chunk) == chunk
  {
  }

  /** Appending to a chunk without a NUL appends to what is kept of it. */
  lemma CStringAppend(a: string, b: string)
    requires forall k :: 0 <= k < |a| ==> a[k] != '\0'
    ensures CString(a + b) == a + CString(b)
  {
    var s := CString(a + b);
    assert |s| >= |a|;
    assert s[..|a|] == a;
    var t := s[|a|..];
    assert t == (a + b)[|a|..|s|] == b[..|t|];
    if |t| < |b| {
      assert b[|t|] == (a + b)[|s|];
    }
    CStringUnique(b, t);
    assert s == s[..|a|] + t;
  }

  /** CString is the only prefix of a chunk with no NUL that ends at a NUL or at the end. */
  lemma {:induction false} CStringUnique(chunk: string, t: string)
    requires |t| <= |chunk| && t == chunk[..|t|]
    requires forall k :: 0 <= k < |t| ==> t[k] != '\0'
    requires |t| < |chunk| ==> chunk[|t|] == '\0'
    ensures CString(chunk) == t
  {
    if t != [] {
      assert chunk[0] == t[0] != '\0';
      assert t[1..] == chunk[1..][..|t| - 1];
      CStringUnique(chunk[1..], t[1..]);
      assert t == [chunk[0]] + t[1..];
    }
  }

  /** std::string::find(c, from): the first index at or after `from` that holds c, or npos. */
  function FindFrom(s: string, c: char, from: nat): (r: Option<nat>)
    requires from <= |s|
    ensures r.Some? ==> from <= r.value < |s| && s[r.value] == c
    decreases |s| - from
  {
    if from == |s| then None
    else if s[from] == c then Some(from)
    else FindFrom(s, c, from + 1)
  }

  /** FindFrom finds the first occurrence, and reports none only when there is none. */
  lemma {:induction false} FindFromFirst(s: string, c: char, from: nat)
    requires from <= |s|
    ensures FindFrom(s, c, from).Some? ==> forall k :: from <= k < FindFrom(s, c, from).value ==> s[k] != c
    ensures FindFrom(s, c, from).None? ==> forall k :: from <= k < |s| ==> s[k] != c
    decreases |s| - from
  {
    if from < |s| && s[from] != c {
      FindFromFirst(s, c, from + 1);
    }
  }

  /** The complete lines of a text, in order, and the unterminated tail. */
  datatype Framed = Framed(lines: seq<string>, rest: string)

  /** Every line followed by its terminator. */
  function JoinLines(lines: seq<string>): string {
    if lines == [] then ""
    else lines[0] + "\n" + JoinLines(lines[1..])
  }

  /**
   * The lines of a text from position `pos` on and its unterminated tail,
   * the way the inner loop of main walks through `str`: find the next '\n'
   * from pos, take the line before it, go on after it; with none left, the
   * rest is the tail.
   */
  function FrameFrom(s: string, pos: nat): Framed
    requires pos <= |s|
    decreases |s| - pos
  {
    match FindFrom(s, '\n', pos)
    case None => Framed([], s[pos..])
    case Some(e) =>
      var f := FrameFrom(s, e + 1);
      Framed([s[pos..e]] + f.lines, f.rest)
  }

  /** The lines and tail of a whole text. */
  function Frame(s: string): Framed {
    FrameFrom(s, 0)
  }

  /** Joining two runs of lines is joining each. */
  lemma {:induction false} JoinLinesAppend(a: seq<string>, b: seq<string>)
    ensures JoinLines(a + b) == JoinLines(a) + JoinLines(b)
    decreases |a|
  {
    if a == [] {
      assert a + b == b;
    } else {
      assert (a + b)[1..] == a[1..] + b;
      JoinLinesAppend(a[1..], b);
      assert JoinLines(a + b) == a[0] + "\n" + (JoinLines(a[1..]) + JoinLines(b));
    }
  }

  /** One line in front of the others, with the tail after them. */
  lemma JoinLinesConsRest(line: string, lines: seq<string>, rest: string)
    ensures JoinLines([line] + lines) + rest == line + "\n" + (JoinLines(lines) + rest)
  {
    assert ([line] + lines)[1..] == lines;
  }

  /** What follows `pos` is the text up to a '\n' at e, the '\n', and what follows it. */
  lemma CutAt(s: string, pos: nat, e: nat)
    requires pos <= e < |s| && s[e] == '\n'
    ensures s[pos..] == s[pos..e] + "\n" + s[e + 1..]
  {
  }

  /** The lines from `pos` on, joined again with the tail, are the text from `pos` on. */
  lemma {:induction false} FrameJoins(s: string, pos: nat)
    requires pos <= |s|
    ensures JoinLines(FrameFrom(s, pos).lines) + FrameFrom(s, pos).rest == s[pos..]
    decreases |s| - pos
  {
    match FindFrom(s, '\n', pos)
    case None =>
      assert FrameFrom(s, pos) == Framed([], s[pos..]);
      assert JoinLines([]) + s[pos..] == s[pos..];
    case Some(e) =>
      var f := FrameFrom(s, e + 1);
      FrameFromSome(s, pos, e);
      FrameJoins(s, e + 1);
      assert pos <= e < |s| && s[e] == '\n';
      assert JoinLines(f.lines) + f.rest == s[e + 1..];
      JoinStep(s, pos, e, f.lines, f.rest);
  }

  /** A line cut out before a '\n' at e, in front of lines that join into what follows e, joins into the text from `pos`. */
  lemma JoinStep(s: string, pos: nat, e: nat, lines: seq<string>, rest: string)
    requires pos <= e < |s| && s[e] == '\n'
    requires JoinLines(lines) + rest == s[e + 1..]
    ensures JoinLines([s[pos..e]] + lines) + rest == s[pos..]
  {
    JoinLinesConsRest(s[pos..e], lines, rest);
    CutAt(s, pos, e);
  }

  /** No line from `pos` on and not the tail holds a '\n'. */
  lemma {:induction false} FrameNoNewline(s: string, pos: nat)
    requires pos <= |s|
    ensures forall k :: 0 <= k < |FrameFrom(s, pos).lines| ==> NoNewline(FrameFrom(s, pos).lines[k])
    ensures NoNewline(FrameFrom(s, pos).rest)
    decreases |s| - pos
  {
    FindFromFirst(s, '\n', pos);
    match FindFrom(s, '\n', pos)
    case None =>
      NoNewlineBetween(s, pos, |s|);
      assert s[pos..|s|] == s[pos..];
    case Some(e) =>
      var f := FrameFrom(s, e + 1);
      FrameFromSome(s, pos, e);
      FrameNoNewline(s, e + 1);
      NoNewlineBetween(s, pos, e);
      NoNewlineLines([s[pos..e]], f.lines);
  }

  /** A stretch of text with no '\n' in it, cut out, holds none. */
  lemma NoNewlineBetween(s: string, from: nat, to: nat)
    requires from <= to <= |s|
    requires forall k :: from <= k < to ==> s[k] != '\n'
    ensures NoNewline(s[from..to])
  {
    assert forall k :: 0 <= k < to - from ==> s[from..to][k] == s[from + k];
  }

  /**
   * Framing loses nothing and invents nothing: the lines, each followed by
   * '\n', then the tail, give back the text, and no line and not the tail
   * holds a '\n'.
   */
  lemma FrameRoundTrip(s: string)
    ensures JoinLines(Frame(s).lines) + Frame(s).rest == s
    ensures forall k :: 0 <= k < |Frame(s).lines| ==> NoNewline(Frame(s).lines[k])
    ensures NoNewline(Frame(s).rest)
  {
    FrameJoins(s, 0);
    FrameNoNewline(s, 0);
    assert s[0..] == s;
  }

  /** Text from `pos` on that holds no '\n' is all tail. */
  lemma FrameFromNoLine(s: string, pos: nat)
    requires pos <= |s| && NoNewline(s[pos..])
    ensures FrameFrom(s, pos) == Framed([], s[pos..])
  {
    assert forall k :: pos <= k < |s| ==> s[k] == s[pos..][k - pos];
  }

  /** The next '\n' after a terminator-free line is the one that ends it. */
  lemma LineEnd(s: string, pos: nat, line: string, more: string)
    requires pos <= |s| && s[pos..] == line + "\n" + more
    requires NoNewline(line)
    ensures pos + |line| < |s| && FindFrom(s, '\n', pos) == Some(pos + |line|)
  {
    FindFromFirst(s, '\n', pos);
    assert s[pos + |line|] == s[pos..][|line|];
    assert forall k :: pos <= k < pos + |line| ==> s[k] == s[pos..][k - pos];
  }

  /** The line and what follows its '\n', cut out of the text again. */
  lemma LineSlices(s: string, pos: nat, line: string, more: string)
    requires pos <= |s| && s[pos..] == line + "\n" + more
    ensures pos + |line| < |s|
    ensures s[pos..pos + |line|] == line && s[pos + |line| + 1..] == more
  {
    assert s[pos..pos + |line|] == s[pos..][..|line|];
    assert s[pos + |line| + 1..] == s[pos..][|line| + 1..];
  }

  /**
   * Text from `pos` on that starts with a terminator-free line and '\n'
   * frames into that line first: once the other lines frame from after the
   * '\n', all of them frame from `pos`.
   */
  lemma FrameFromLine(s: string, pos: nat, lines: seq<string>, more: string)
    requires lines != [] && NoNewline(lines[0])
    requires pos <= |s| && s[pos..] == lines[0] + "\n" + more
    ensures pos + |lines[0]| < |s| && s[pos + |lines[0]| + 1..] == more
    ensures var f := FrameFrom(s, pos + |lines[0]| + 1);
      f.lines == lines[1..] ==> FrameFrom(s, pos) == Framed(lines, f.rest)
  {
    var line := lines[0];
    LineEnd(s, pos, line, more);
    LineSlices(s, pos, line, more);
    FrameFromSome(s, pos, pos + |line|);
    HeadTail(lines);
  }

  /** With a '\n' at e next, framing from `pos` takes the line before it and goes on after it. */
  lemma FrameFromSome(s: string, pos: nat, e: nat)
    requires pos <= |s| && FindFrom(s, '\n', pos) == Some(e)
    ensures var f := FrameFrom(s, e + 1);
      FrameFrom(s, pos) == Framed([s[pos..e]] + f.lines, f.rest)
  {
  }

  /** The first of the joined lines from `pos` on is the first line framed from there. */
  lemma FrameFromCons(s: string, pos: nat, lines: seq<string>, rest: string)
    requires lines != [] && NoNewline(lines[0])
    requires pos <= |s| && s[pos..] == JoinLines(lines) + rest
    ensures pos + |lines[0]| < |s| && s[pos + |lines[0]| + 1..] == JoinLines(lines[1..]) + rest
    ensures FrameFrom(s, pos + |lines[0]| + 1) == Framed(lines[1..], rest) ==> FrameFrom(s, pos) == Framed(lines, rest)
  {
    JoinLinesFirst(lines, rest);
    FrameFromLine(s, pos, lines, JoinLines(lines[1..]) + rest);
  }

  /** The first line, its '\n', then the other lines and the tail. */
  lemma JoinLinesFirst(lines: seq<string>, rest: string)
    requires lines != []
    ensures JoinLines(lines) + rest == lines[0] + "\n" + (JoinLines(lines[1..]) + rest)
  {
  }

  /** The lines after the first of terminator-free lines are terminator-free. */
  lemma NoNewlineTail(lines: seq<string>)
    requires lines != []
    requires forall k :: 0 <= k < |lines| ==> NoNewline(lines[k])
    ensures forall k :: 0 <= k < |lines[1..]| ==> NoNewline(lines[1..][k])
  {
    assert forall k :: 0 <= k < |lines[1..]| ==> lines[1..][k] == lines[k + 1];
  }

  /** A non-empty sequence is its first element followed by the others. */
  lemma HeadTail(lines: seq<string>)
    requires lines != []
    ensures [lines[0]] + lines[1..] == lines
  {
  }

  /** Text from `pos` on made of terminator-free lines and a terminator-free tail frames into exactly those. */
  lemma {:induction false} FrameFromOfJoin(s: string, pos: nat, lines: seq<string>, rest: string)
    requires pos <= |s| && s[pos..] == JoinLines(lines) + rest
    requires forall k :: 0 <= k < |lines| ==> NoNewline(lines[k])
    requires NoNewline(rest)
    ensures FrameFrom(s, pos) == Framed(lines, rest)
    decreases |lines|
  {
    if lines == [] {
      FrameFromNoLine(s, pos);
    } else {
      FrameFromCons(s, pos, lines, rest);
      NoNewlineTail(lines);
      FrameFromOfJoin(s, pos + |lines[0]| + 1, lines[1..], rest);
    }
  }

  /**
   * The converse of the round trip: text made of terminator-free lines, each
   * followed by '\n', and a terminator-free tail frames back into exactly
   * those lines and tail.
   */
  lemma FrameOfJoin(lines: seq<string>, rest: string)
    requires forall k :: 0 <= k < |lines| ==> NoNewline(lines[k])
    requires NoNewline(rest)
    ensures Frame(JoinLines(lines) + rest) == Framed(lines, rest)
  {
    var s := JoinLines(lines) + rest;
    assert s[0..] == s;
    FrameFromOfJoin(s, 0, lines, rest);
  }

  /** Framing a text that continues one already framed continues the framing of its tail. */
  lemma FrameAppend(s: string, t: string)
    ensures Frame(s + t).lines == Frame(s).lines + Frame(Frame(s).rest + t).lines
    ensures Frame(s + t).rest == Frame(Frame(s).rest + t).rest
  {
    var f := Frame(s);
    var g := Frame(f.rest + t);
    FrameRoundTrip(s);
    FrameRoundTrip(f.rest + t);
    JoinThenJoin(f.lines, f.rest, g.lines, g.rest, s, t);
    NoNewlineLines(f.lines, g.lines);
    FrameOfJoin(f.lines + g.lines, g.rest);
  }

  /** Lines and a tail that make up s, and lines and a tail that make up that tail and t, make up s + t. */
  lemma JoinThenJoin(a: seq<string>, ra: string, b: seq<string>, rb: string, s: string, t: string)
    requires JoinLines(a) + ra == s
    requires JoinLines(b) + rb == ra + t
    ensures JoinLines(a + b) + rb == s + t
  {
    JoinLinesAppend(a, b);
    calc {
      JoinLines(a + b) + rb;
      JoinLines(a) + JoinLines(b) + rb;
      JoinLines(a) + (JoinLines(b) + rb);
      JoinLines(a) + (ra + t);
      JoinLines(a) + ra + t;
    }
  }

  /** Two runs of terminator-free lines make one. */
  lemma NoNewlineLines(a: seq<string>, b: seq<string>)
    requires forall k :: 0 <= k < |a| ==> NoNewline(a[k])
    requires forall k :: 0 <= k < |b| ==> NoNewline(b[k])
    ensures forall k :: 0 <= k < |a + b| ==> NoNewline((a + b)[k])
  {
    forall k | 0 <= k < |a + b|
      ensures NoNewline((a + b)[k])
    {
      if k < |a| {
        assert (a + b)[k] == a[k];
      } else {
        assert (a + b)[k] == b[k - |a|];
      }
    }
  }

  /**
   * Where the inner loop of main stands: the lines before `pos` are `done`,
   * and they precede the frame of the text from `pos` on.
   */
  ghost predicate FramedUpTo(s: string, pos: nat, done: seq<string>) {
    pos <= |s| && done + FrameFrom(s, pos).lines == Frame(s).lines && FrameFrom(s, pos).rest == Frame(s).rest
  }

  /** Moving past the next '\n' at e keeps the place of the inner loop of main. */
  lemma FrameAdvance(s: string, pos: nat, e: nat, done: seq<string>, line: string)
    requires FramedUpTo(s, pos, done)
    requires FindFrom(s, '\n', pos) == Some(e) && line == s[pos..e]
    ensures FramedUpTo(s, e + 1, done + [line])
  {
    assert FrameFrom(s, pos).lines == [s[pos..e]] + FrameFrom(s, e + 1).lines;
  }

  /** The lines before the place of the inner loop of main begin the frame. */
  lemma FramedPrefix(s: string, pos: nat, done: seq<string>)
    requires FramedUpTo(s, pos, done)
    ensures done <= Frame(s).lines
  {
    assert Frame(s).lines[..|done|] == done;
  }

  /** Where the inner loop of main stops: with no '\n' from `pos` on, the lines before it are all of them and the rest is the tail. */
  lemma FrameFinish(s: string, pos: nat, done: seq<string>)
    requires FramedUpTo(s, pos, done)
    requires FindFrom(s, '\n', pos).None?
    ensures done == Frame(s).lines && s[pos..] == Frame(s).rest
  {
    assert done + [] == done;
  }
}
