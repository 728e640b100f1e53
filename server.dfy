/**
 * The server loop of ledsrv.cpp: the authoritative LED state (gLedState),
 * the leftover text between reads (accum), and the calls it makes to the
 * view (gLedView->Update), first as functions of the input, then as the
 * LedServer class whose methods run the loops of DispatchRequest and main.
 */
module Server {

  import opened Wrappers
  import opened Led
  import opened Text
  import opened Requests
  import opened RequestLaws
  import opened Framing

  // ---------------------------------------------------------------------------
  // Running request lines

  /**
   * Where the server stands after some request lines: the state, every state
   * handed to Update so far, the reply lines written, and whether an
   * exception has ended the process.
   */
  datatype Run = Run(led: LedState, viewLog: seq<LedState>, responses: seq<string>, halted: bool)

  /**
   * One request line: DispatchRequest, then the reply line written back. An
   * exception out of the handler ends the process, so nothing is written and
   * nothing runs after it.
   */
  function RunLine(r: Run, line: string): Run {
    if r.halted then r
    else
      var t := Execute(line, r.led);
      match t.outcome
      case Abort(_) => r.(halted := true)
      case Reply(ok, output) =>
        Run(t.next, if t.next != r.led then r.viewLog + [t.next] else r.viewLog,
            r.responses + [Response(ok, output)], false)
  }

  /** The request lines one after the other, in order. */
  function RunLines(r: Run, lines: seq<string>): Run
    decreases |lines|
  {
    if lines == [] then r
    else RunLine(RunLines(r, lines[..|lines| - 1]), lines[|lines| - 1])
  }

  /** No two neighbouring entries of the view log are the same state. */
  predicate NoRepeats(log: seq<LedState>) {
    forall k :: 0 < k < |log| ==> log[k - 1] != log[k]
  }

  /**
   * What the server keeps true: the rate is in range, the view has been
   * told every state and was last told the current one, and it was never
   * told the same state twice in a row.
   */
  predicate ValidRun(r: Run) {
    && ValidLed(r.led)
    && |r.viewLog| >= 1
    && r.viewLog[|r.viewLog| - 1] == r.led
    && NoRepeats(r.viewLog)
    && (forall k :: 0 <= k < |r.viewLog| ==> ValidLed(r.viewLog[k]))
  }

  /**
   * Update is called once, with the new state, exactly when the state
   * changes, and the state changes only on a successful request.
   */
  lemma RunLineNotifies(r: Run, line: string)
    requires !r.halted
    ensures var r' := RunLine(r, line);
      && (r'.led != r.led ==> r'.viewLog == r.viewLog + [r'.led])
      && (r'.led == r.led ==> r'.viewLog == r.viewLog)
      && (r'.led != r.led ==> Execute(line, r.led).outcome == Reply(true, Execute(line, r.led).outcome.output))
  {
    ExecuteFacts(line, r.led);
  }

  /** A request line keeps what the server keeps true. */
  lemma RunLinePreservesValid(r: Run, line: string)
    requires ValidRun(r)
    ensures ValidRun(RunLine(r, line))
  {
    ExecuteFacts(line, r.led);
    var r' := RunLine(r, line);
    if !r.halted && r'.led != r.led {
      var log := r'.viewLog;
      assert log == r.viewLog + [r'.led];
      forall k | 0 < k < |log|
        ensures log[k - 1] != log[k]
      {
        if k < |log| - 1 {
          assert log[k - 1] == r.viewLog[k - 1] && log[k] == r.viewLog[k];
        }
      }
    }
  }

  /** A run of request lines keeps what the server keeps true. */
  lemma {:induction false} RunLinesPreservesValid(r: Run, lines: seq<string>)
    requires ValidRun(r)
    ensures ValidRun(RunLines(r, lines))
    decreases |lines|
  {
    if lines != [] {
      RunLinesPreservesValid(r, lines[..|lines| - 1]);
      RunLinePreservesValid(RunLines(r, lines[..|lines| - 1]), lines[|lines| - 1]);
    }
  }

  /** Running two runs of lines is running their concatenation. */
  lemma {:induction false} RunLinesAppend(r: Run, a: seq<string>, b: seq<string>)
    ensures RunLines(r, a + b) == RunLines(RunLines(r, a), b)
    decreases |b|
  {
    if b == [] {
      assert a + b == a;
    } else {
      var b' := b[..|b| - 1];
      assert (a + b)[..|a + b| - 1] == a + b';
      assert (a + b)[|a + b| - 1] == b[|b| - 1];
      RunLinesAppend(r, a, b');
    }
  }

  /** After the process has ended nothing more happens. */
  lemma {:induction false} RunLinesHalted(r: Run, lines: seq<string>)
    requires r.halted
    ensures RunLines(r, lines) == r
    decreases |lines|
  {
    if lines != [] {
      RunLinesHalted(r, lines[..|lines| - 1]);
    }
  }

  /** The replies already written play no part in what follows. */
  lemma {:induction false} RunLinesShift(r: Run, lines: seq<string>)
    ensures var x := RunLines(r.(responses := []), lines);
      RunLines(r, lines) == x.(responses := r.responses + x.responses)
    decreases |lines|
  {
    if lines != [] {
      var init := lines[..|lines| - 1];
      RunLinesShift(r, init);
      var x := RunLines(r.(responses := []), init);
      var y := RunLine(x, lines[|lines| - 1]);
      if !x.halted && Execute(lines[|lines| - 1], x.led).outcome.Reply? {
        assert r.responses + y.responses == r.responses + x.responses + [y.responses[|y.responses| - 1]];
      }
    }
  }

  /**
   * Replies and view updates are only ever added: each line adds at most one
   * reply, and exactly one unless it ends the process.
   */
  lemma {:induction false} RunLinesGrow(r: Run, lines: seq<string>)
    ensures var x := RunLines(r, lines);
      && r.responses <= x.responses
      && r.viewLog <= x.viewLog
      && |x.responses| <= |r.responses| + |lines|
      && (!x.halted ==> |x.responses| == |r.responses| + |lines|)
    decreases |lines|
  {
    if lines != [] {
      RunLinesGrow(r, lines[..|lines| - 1]);
    }
  }

  /** A line that does not end the process adds exactly its own reply. */
  lemma RunLineReplies(x: Run, line: string)
    requires !RunLine(x, line).halted
    ensures var o := Execute(line, x.led).outcome;
      && !x.halted && o.Reply?
      && RunLine(x, line).responses == x.responses + [Response(o.ok, o.output)]
  {
  }

  /**
   * The lines are answered in order: unless one ends the process, reply
   * number k answers line k in the state the earlier lines left.
   */
  lemma {:induction false} RunLinesReplies(r: Run, lines: seq<string>)
    requires !RunLines(r, lines).halted
    ensures forall k :: 0 <= k < |lines| ==>
      var o := Execute(lines[k], RunLines(r, lines[..k]).led).outcome;
      && o.Reply?
      && |r.responses| + k < |RunLines(r, lines).responses|
      && RunLines(r, lines).responses[|r.responses| + k] == Response(o.ok, o.output)
    decreases |lines|
  {
    if lines != [] {
      var init := lines[..|lines| - 1];
      var last := lines[|lines| - 1];
      var xi := RunLines(r, init);
      var x := RunLines(r, lines);
      assert x == RunLine(xi, last);
      RunLineReplies(xi, last);
      RunLinesGrow(r, init);
      RunLinesReplies(r, init);
      forall k | 0 <= k < |lines|
        ensures var o := Execute(lines[k], RunLines(r, lines[..k]).led).outcome;
          && o.Reply?
          && |r.responses| + k < |RunLines(r, lines).responses|
          && RunLines(r, lines).responses[|r.responses| + k] == Response(o.ok, o.output)
      {
        if k < |init| {
          assert lines[k] == init[k] && lines[..k] == init[..k];
        } else {
          assert lines[..k] == init && lines[k] == last;
        }
      }
    }
  }

  /**
   * Sending the same request twice: the second answers like the first and
   * changes nothing, so the view is told about the change at most once.
   */
  lemma RepeatNotifiesOnce(r: Run, line: string)
    ensures var r1 := RunLine(r, line);
      var r2 := RunLine(r1, line);
      && r2.led == r1.led && r2.viewLog == r1.viewLog && r2.halted == r1.halted
      && (!r1.halted && !r.halted ==>
            |r1.responses| > 0 && r2.responses == r1.responses + [r1.responses[|r1.responses| - 1]])
  {
    ExecuteIdempotent(line, r.led);
  }

  /** An empty line is dispatched like any other and answered FAILED. */
  lemma EmptyLineAnsweredFailed(r: Run)
    requires !r.halted
    ensures RunLine(r, "") == r.(responses := r.responses + ["FAILED\n"])
  {
    EmptyLineFails(r.led);
  }

  // ---------------------------------------------------------------------------
  // Reading chunks

  /** The server's state between reads. */
  datatype Snapshot = Snapshot(led: LedState, accum: string, viewLog: seq<LedState>, halted: bool)

  /** What the server keeps true between reads; the leftover text is never a complete line. */
  predicate ValidSnapshot(s: Snapshot) {
    ValidRun(Run(s.led, s.viewLog, [], s.halted)) && NoNewline(s.accum)
  }

  /**
   * One pass of the read loop of main: the chunk joins the leftover text,
   * every complete line is run, and the unterminated tail is kept. When a
   * line ends the process the leftover text is never reassigned.
   */
  function FeedSpec(s: Snapshot, chunk: string): (Snapshot, seq<string>) {
    var f := Frame(s.accum + CString(chunk));
    var r := RunLines(Run(s.led, s.viewLog, [], s.halted), f.lines);
    (Snapshot(r.led, if r.halted then s.accum else f.rest, r.viewLog, r.halted), r.responses)
  }

  /** Reading a chunk keeps what the server keeps true. */
  lemma FeedPreservesValid(s: Snapshot, chunk: string)
    requires ValidSnapshot(s)
    ensures ValidSnapshot(FeedSpec(s, chunk).0)
  {
    var f := Frame(s.accum + CString(chunk));
    FrameRoundTrip(s.accum + CString(chunk));
    RunLinesPreservesValid(Run(s.led, s.viewLog, [], s.halted), f.lines);
  }

  /**
   * Reading a chunk dispatches the complete lines of the leftover text and
   * the chunk, in order, one reply each: the lines, each with its '\n', then
   * the new leftover text, are the old leftover text and the chunk.
   */
  lemma FeedDispatchesLines(s: Snapshot, chunk: string)
    requires !s.halted
    requires forall k :: 0 <= k < |chunk| ==> chunk[k] != '\0'
    ensures var (s', out) := FeedSpec(s, chunk);
      var lines := Frame(s.accum + chunk).lines;
      && (!s'.halted ==> JoinLines(lines) + s'.accum == s.accum + chunk && |out| == |lines|)
      && (forall k :: 0 <= k < |lines| ==> NoNewline(lines[k]))
      && (!s'.halted ==> NoNewline(s'.accum))
  {
    CStringWhole(chunk);
    var f := Frame(s.accum + chunk);
    FrameRoundTrip(s.accum + chunk);
    var x := RunLines(Run(s.led, s.viewLog, [], false), f.lines);
    RunLinesGrow(Run(s.led, s.viewLog, [], false), f.lines);
    assert FeedSpec(s, chunk) == (Snapshot(x.led, if x.halted then s.accum else f.rest, x.viewLog, x.halted), x.responses);
  }

  /** A blank line after a complete request is answered FAILED and changes nothing. */
  lemma FeedBlankLine(s: Snapshot)
    requires !s.halted && s.accum == []
    ensures FeedSpec(s, "\n") == (s, ["FAILED\n"])
  {
    CStringWhole("\n");
    assert JoinLines([""]) == "\n" by {
      assert [""][1..] == [];
    }
    FrameOfJoin([""], "");
    assert s.accum + "\n" == JoinLines([""]) + "";
    var r0 := Run(s.led, s.viewLog, [], false);
    assert RunLines(r0, [""]) == RunLine(r0, "") by {
      assert [""][..0] == [];
    }
    EmptyLineAnsweredFailed(r0);
    assert r0.responses + ["FAILED\n"] == ["FAILED\n"];
  }

  /** After the process has ended no read happens. */
  lemma FeedHalted(s: Snapshot, chunk: string)
    requires s.halted
    ensures FeedSpec(s, chunk) == (s, [])
  {
    RunLinesHalted(Run(s.led, s.viewLog, [], true), Frame(s.accum + CString(chunk)).lines);
  }

  /**
   * What remains of a snapshot: once an exception has ended the process, its
   * leftover text is gone with it.
   */
  function Observed(s: Snapshot): Snapshot {
    if s.halted then s.(accum := "") else s
  }

  /** Snapshots that agree on what remains of them go on to agree after a read. */
  lemma FeedObserved(p: Snapshot, q: Snapshot, chunk: string)
    requires Observed(p) == Observed(q)
    ensures Observed(FeedSpec(p, chunk).0) == Observed(FeedSpec(q, chunk).0)
    ensures FeedSpec(p, chunk).1 == FeedSpec(q, chunk).1
  {
    if p.halted {
      FeedHalted(p, chunk);
      FeedHalted(q, chunk);
    }
  }

  /**
   * A request may arrive split over reads at any point: reading a then b
   * does what reading a + b at once does, unless a line of a ended the
   * process, which then never reads b. A NUL in a would cut the rest of a
   * short, so a holds none.
   */
  lemma FeedSplit(s: Snapshot, a: string, b: string)
    requires forall k :: 0 <= k < |a| ==> a[k] != '\0'
    ensures var (s1, o1) := FeedSpec(s, a);
      var (s2, o2) := FeedSpec(s1, b);
      var (s3, o3) := FeedSpec(s, a + b);
      Observed(s3) == Observed(s2) && o3 == o1 + o2
  {
    CStringWhole(a);
    CStringAppend(a, b);
    var str1 := s.accum + a;
    assert s.accum + CString(a + b) == str1 + CString(b);
    var f1 := Frame(str1);
    var g := Frame(f1.rest + CString(b));
    FrameAppend(str1, CString(b));
    var r0 := Run(s.led, s.viewLog, [], s.halted);
    var x1 := RunLines(r0, f1.lines);
    RunLinesAppend(r0, f1.lines, g.lines);
    var (s1, o1) := FeedSpec(s, a);
    if x1.halted {
      FeedHalted(s1, b);
      RunLinesHalted(x1, g.lines);
      assert o1 + [] == o1;
    } else {
      assert s1 == Snapshot(x1.led, f1.rest, x1.viewLog, false) && o1 == x1.responses;
      assert x1.(responses := []) == Run(s1.led, s1.viewLog, [], false);
      RunLinesShift(x1, g.lines);
    }
  }

  /** Every chunk, each followed by the next. */
  function Concat(chunks: seq<string>): string
    decreases |chunks|
  {
    if chunks == [] then ""
    else Concat(chunks[..|chunks| - 1]) + chunks[|chunks| - 1]
  }

  /** No chunk holds a NUL. */
  predicate NulFree(chunks: seq<string>) {
    forall i, k :: 0 <= i < |chunks| && 0 <= k < |chunks[i]| ==> chunks[i][k] != '\0'
  }

  /** Chunks without a NUL concatenate to text without a NUL. */
  lemma {:induction false} ConcatNulFree(chunks: seq<string>)
    requires NulFree(chunks)
    ensures forall k :: 0 <= k < |Concat(chunks)| ==> Concat(chunks)[k] != '\0'
    decreases |chunks|
  {
    if chunks != [] {
      var init := chunks[..|chunks| - 1];
      assert NulFree(init) by {
        forall i, k | 0 <= i < |init| && 0 <= k < |init[i]|
          ensures init[i][k] != '\0'
        {
          assert init[i] == chunks[i];
        }
      }
      ConcatNulFree(init);
      var last := chunks[|chunks| - 1];
      forall k | 0 <= k < |Concat(chunks)|
        ensures Concat(chunks)[k] != '\0'
      {
        if k >= |Concat(init)| {
          assert Concat(chunks)[k] == last[k - |Concat(init)|];
        }
      }
    }
  }

  /** Reads of the given chunks, one after the other, the responses of each in order. */
  function FeedAll(s: Snapshot, chunks: seq<string>): (Snapshot, seq<string>)
    decreases |chunks|
  {
    if chunks == [] then (s, [])
    else
      var (p, out) := FeedAll(s, chunks[..|chunks| - 1]);
      var (q, more) := FeedSpec(p, chunks[|chunks| - 1]);
      (q, out + more)
  }

  /**
   * How the input is cut into reads does not matter: reading the chunks one
   * by one answers and changes what reading all of them at once does.
   */
  lemma {:induction false} FeedAllConcat(s: Snapshot, chunks: seq<string>)
    requires ValidSnapshot(s)
    requires NulFree(chunks)
    ensures Observed(FeedAll(s, chunks).0) == Observed(FeedSpec(s, Concat(chunks)).0)
    ensures FeedAll(s, chunks).1 == FeedSpec(s, Concat(chunks)).1
    decreases |chunks|
  {
    if chunks == [] {
      FrameOfJoin([], s.accum);
      assert s.accum + CString("") == JoinLines([]) + s.accum;
    } else {
      var init := chunks[..|chunks| - 1];
      var last := chunks[|chunks| - 1];
      assert NulFree(init) by {
        forall i, k | 0 <= i < |init| && 0 <= k < |init[i]|
          ensures init[i][k] != '\0'
        {
          assert init[i] == chunks[i];
        }
      }
      FeedAllConcat(s, init);
      ConcatNulFree(init);
      FeedSplit(s, Concat(init), last);
      var p := FeedAll(s, init);
      var q := FeedSpec(s, Concat(init));
      FeedObserved(p.0, q.0, last);
    }
  }

  /** Two ways of cutting the same input into reads have the same effect. */
  lemma ChunkingIrrelevant(s: Snapshot, cs1: seq<string>, cs2: seq<string>)
    requires ValidSnapshot(s)
    requires NulFree(cs1) && NulFree(cs2)
    requires Concat(cs1) == Concat(cs2)
    ensures Observed(FeedAll(s, cs1).0) == Observed(FeedAll(s, cs2).0)
    ensures FeedAll(s, cs1).1 == FeedAll(s, cs2).1
  {
    FeedAllConcat(s, cs1);
    FeedAllConcat(s, cs2);
  }

  /** Once a read has ended the process, the reads after it change nothing. */
  lemma {:induction false} FeedAllAfterHalt(s: Snapshot, chunks: seq<string>, k: nat)
    requires k <= |chunks|
    requires FeedAll(s, chunks[..k]).0.halted
    ensures FeedAll(s, chunks) == FeedAll(s, chunks[..k])
    decreases |chunks| - k
  {
    if k < |chunks| {
      var p := FeedAll(s, chunks[..k]);
      assert chunks[..k + 1][..k] == chunks[..k];
      FeedHalted(p.0, chunks[k]);
      assert p.1 + [] == p.1;
      FeedAllAfterHalt(s, chunks, k + 1);
    } else {
      assert chunks[..k] == chunks;
    }
  }

  /** One more line at the end of a run. */
  lemma RunLinesSnoc(r: Run, lines: seq<string>, line: string)
    ensures RunLines(r, lines + [line]) == RunLine(RunLines(r, lines), line)
  {
    assert (lines + [line])[..|lines|] == lines;
  }

  /** Running `lines` from `r0` ends in `x`. */
  ghost predicate Reached(r0: Run, lines: seq<string>, x: Run) {
    RunLines(r0, lines) == x
  }

  /** A read whose lines all ran ends with their tail as the leftover text. */
  lemma FeedEnds(s: Snapshot, chunk: string, done: seq<string>, after: Snapshot, responses: seq<string>)
    requires !s.halted && !after.halted
    requires done == Frame(s.accum + CString(chunk)).lines
    requires after.accum == Frame(s.accum + CString(chunk)).rest
    requires Reached(Run(s.led, s.viewLog, [], false), done, Run(after.led, after.viewLog, responses, false))
    ensures (after, responses) == FeedSpec(s, chunk)
  {
  }

  /** A read one of whose lines ended the process leaves everything as that line left it. */
  lemma FeedAborts(s: Snapshot, chunk: string, done: seq<string>, after: Snapshot, responses: seq<string>)
    requires !s.halted && after.halted && after.accum == s.accum
    requires done <= Frame(s.accum + CString(chunk)).lines
    requires Reached(Run(s.led, s.viewLog, [], false), done, Run(after.led, after.viewLog, responses, true))
    ensures (after, responses) == FeedSpec(s, chunk)
  {
    var lines := Frame(s.accum + CString(chunk)).lines;
    var later := lines[|done|..];
    assert done + later == lines;
    var r0 := Run(s.led, s.viewLog, [], false);
    var x := Run(after.led, after.viewLog, responses, true);
    RunLinesAppend(r0, done, later);
    RunLinesHalted(x, later);
  }

  // ---------------------------------------------------------------------------
  // The server

  /** The server process: gLedState, the accum buffer of main, and the view it tells about changes. */
  class LedServer {

    /** gLedState. */
    var led: LedState
    /** The text read since the last complete line. */
    var accum: string
    /** An exception has ended the process. */
    var halted: bool
    /** Every state handed to gLedView->Update, in order. */
    ghost var viewLog: seq<LedState>

    ghost function Snap(): Snapshot
      reads this
    {
      Snapshot(led, accum, viewLog, halted)
    }

    ghost predicate Valid()
      reads this
    {
      ValidSnapshot(Snap())
    }

    /** The state at start-up, already shown once by the view. */
    constructor ()
      ensures Snap() == Snapshot(Initial, "", [Initial], false)
      ensures Valid()
    {
      led := Initial;
      accum := "";
      halted := false;
      viewLog := [Initial];
    }

    /** The search loop of DispatchRequest: the first entry whose verb is token 0, exactly, and whose arity fits. */
    static method FindRequest(argv: seq<string>) returns (found: Option<nat>)
      requires |argv| >= 1
      ensures found == Lookup(argv)
    {
      var i := 0;
      while i < |Table|
        invariant 0 <= i <= |Table|
        invariant LookupFrom(argv, i) == Lookup(argv)
      {
        var r := Table[i];
        if argv[0] == r.command && |argv| - 1 == r.nargs {
          return Some(i);
        }
        i := i + 1;
      }
      return None;
    }

    /**
     * DispatchRequest: looks the request up in the table, runs the handler
     * on a copy of the state, and commits the copy, telling the view first,
     * when the handler succeeded and the copy differs.
     */
    method Dispatch(req: string) returns (outcome: Outcome)
      requires !halted
      modifies this
      ensures Transition(outcome, led) == Execute(req, old(led))
      ensures viewLog == if led != old(led) then old(viewLog) + [led] else old(viewLog)
      ensures halted == outcome.Abort? && accum == old(accum)
      ensures outcome.Abort? ==> led == old(led)
    {
      var argv := Split(req);
      ExecuteLooksUp(req, led);
      var found := FindRequest(argv);
      if found.None? {
        return Reply(false, "");
      }
      var i := found.value;
      TableWellFormed();
      var copy := led;
      var res := Handle(Table[i].handler, argv, copy);
      if res.Raised? {
        halted := true;
        return Abort(res.error);
      }
      if res.ok && !SameLed(res.led, led) {
        viewLog := viewLog + [res.led];
        led := res.led;
      }
      return Reply(res.ok, res.output);
    }

    /**
     * One complete request line inside the read loop of main: dispatch it and
     * write back the reply line, unless the exception it raised ended the
     * process. `sofar` stands for the replies already written, after the
     * lines `done` ran from `r0`.
     */
    method Answer(line: string, ghost r0: Run, ghost done: seq<string>, ghost sofar: seq<string>)
      returns (reply: Option<string>)
      requires !halted && Reached(r0, done, Run(led, viewLog, sofar, false))
      modifies this
      ensures reply.Some? ==> Reached(r0, done + [line], Run(led, viewLog, sofar + [reply.value], false))
      ensures reply.None? ==> Reached(r0, done + [line], Run(led, viewLog, sofar, true))
      ensures halted <==> reply.None?
      ensures accum == old(accum)
    {
      RunLinesSnoc(r0, done, line);
      var outcome := Dispatch(line);
      match outcome
      case Abort(_) =>
        reply := None;
      case Reply(ok, output) =>
        reply := Some(Response(ok, output));
    }

    /**
     * The inner loop of main over the text read so far: each complete line,
     * in order, is dispatched and answered, until none is left or one ends
     * the process. When none ended it, `done` is every line and the tail
     * starts at `pos`.
     */
    method AnswerLines(str: string, ghost r0: Run) returns (pos: nat, ghost done: seq<string>, responses: seq<string>)
      requires !halted && r0 == Run(led, viewLog, [], false)
      modifies this
      ensures Reached(r0, done, Run(led, viewLog, responses, halted))
      ensures done <= Frame(str).lines
      ensures !halted ==> done == Frame(str).lines && pos <= |str| && str[pos..] == Frame(str).rest
      ensures accum == old(accum)
    {
      pos := 0;
      done := [];
      responses := [];
      while true
        invariant FramedUpTo(str, pos, done)
        invariant Reached(r0, done, Run(led, viewLog, responses, false))
        invariant !halted && accum == old(accum)
        decreases |str| - pos
      {
        var end := FindFrom(str, '\n', pos);
        if end.None? {
          FrameFinish(str, pos, done);
          return;
        }
        var e := end.value;
        var line := str[pos..e];
        FrameAdvance(str, pos, e, done, line);
        var reply := Answer(line, r0, done, responses);
        if reply.None? {
          // The exception leaves main: no reply, no further line.
          FramedPrefix(str, e + 1, done + [line]);
          done := done + [line];
          return;
        }
        responses := responses + [reply.value];
        done := done + [line];
        pos := e + 1;
      }
    }

    /**
     * One pass of the read loop of main: the chunk joins the leftover text,
     * each complete line is dispatched and answered in turn, and the
     * unterminated tail becomes the leftover text.
     */
    method Feed(chunk: string) returns (responses: seq<string>)
      requires !halted
      modifies this
      ensures (Snap(), responses) == FeedSpec(old(Snap()), chunk)
    {
      ghost var s0 := Snap();
      var str := accum + CString(chunk);
      var pos;
      ghost var done;
      pos, done, responses := AnswerLines(str, Run(led, viewLog, [], false));
      if halted {
        FeedAborts(s0, chunk, done, Snap(), responses);
      } else {
        accum := str[pos..];
        FeedEnds(s0, chunk, done, Snap(), responses);
      }
    }

    /** The read loop of main over a sequence of reads, until an exception ends it. */
    method Serve(chunks: seq<string>) returns (responses: seq<string>)
      requires Valid() && !halted
      modifies this
      ensures (Snap(), responses) == FeedAll(old(Snap()), chunks)
      ensures Valid()
    {
      responses := [];
      var k := 0;
      while k < |chunks| && !halted
        invariant 0 <= k <= |chunks|
        invariant Valid()
        invariant (Snap(), responses) == FeedAll(old(Snap()), chunks[..k])
      {
        ghost var before := Snap();
        var out := Feed(chunks[k]);
        FeedPreservesValid(before, chunks[k]);
        assert chunks[..k + 1][..k] == chunks[..k];
        responses := responses + out;
        k := k + 1;
      }
      if k < |chunks| {
        FeedAllAfterHalt(old(Snap()), chunks, k);
      } else {
        assert chunks[..k] == chunks;
      }
    }
  }
}
