/**
 * What a client of the dispatcher can observe: the laws that the request
 * lines of ledsrv.cpp obey, stated over Requests.Execute. Each law is stated
 * for every line that splits into the tokens it names.
 */
module RequestLaws {

  import opened Wrappers
  import opened Led
  import opened Text
  import opened Requests

  /** A handler that succeeded, run again on the state it produced, does the same thing again. */
  lemma HandleIdempotent(h: Handler, argv: seq<string>, led: LedState)
    requires |argv| == Arity(h) + 1
    requires Handle(h, argv, led).Handled? && Handle(h, argv, led).ok
    ensures Handle(h, argv, Handle(h, argv, led).led) == Handle(h, argv, led)
  {
  }

  /**
   * Repeating a request gives the same reply and leaves the state where the
   * first one left it; in particular the second of two equal set requests
   * commits nothing.
   */
  lemma ExecuteIdempotent(line: string, cur: LedState)
    ensures var t := Execute(line, cur);
      Execute(line, t.next) == Transition(t.outcome, t.next)
  {
    var argv := Split(line);
    ExecuteLooksUp(line, cur);
    ExecuteLooksUp(line, Execute(line, cur).next);
    match Lookup(argv)
    case None =>
    case Some(i) =>
      TableWellFormed();
      var r := Handle(Table[i].handler, argv, cur);
      if r.Handled? && r.ok {
        HandleIdempotent(Table[i].handler, argv, cur);
      }
  }

  /**
   * A request is answered by a handler only when its first token is a verb
   * of the table, compared exactly, and the line holds exactly as many
   * whitespace characters as that verb takes arguments; otherwise it fails
   * and changes nothing.
   */
  lemma HandledOnlyWithExactVerbAndArity(line: string, cur: LedState)
    ensures var t := Execute(line, cur);
      (exists i :: 0 <= i < |Table| && Split(line)[0] == Table[i].command && |Separators(line)| == Table[i].nargs)
      || t == Transition(Reply(false, ""), cur)
  {
    SplitRoundTrip(line);
    ExecuteLooksUp(line, cur);
    var argv := Split(line);
    match Lookup(argv)
    case None =>
    case Some(i) =>
      assert Split(line)[0] == Table[i].command && |Separators(line)| == Table[i].nargs;
  }

  /** A whitespace character after a complete request (a trailing space, a carriage return) makes it fail. */
  lemma TrailingWhitespaceFails(line: string, c: char, cur: LedState)
    requires IsSpace(c)
    requires Lookup(Split(line)).Some?
    ensures Execute(line + [c], cur) == Transition(Reply(false, ""), cur)
  {
    TableWellFormed();
    ExecuteLooksUp(line + [c], cur);
    SplitTrailingSeparator(line, c);
    var i := Lookup(Split(line)).value;
    var argv := Split(line + [c]);
    forall j | 0 <= j < |Table|
      ensures !Matches(Table[j], argv)
    {
      if Table[j].command == argv[0] {
        assert Table[j].command == Table[i].command;
      }
    }
  }

  /** No two verbs of the table are equal even up to case: each pair differs at character 0 or character 8 in more than case. */
  lemma VerbsDistinctUpToCase(i: nat, j: nat)
    requires i < |Table| && j < |Table|
    requires IEquals(Table[i].command, Table[j].command)
    ensures i == j
  {
    var a, b := Table[i].command, Table[j].command;
    assert Upper(a[0]) == Upper(b[0]) && Upper(a[8]) == Upper(b[8]);
  }

  /** Verbs are compared exactly: a verb that differs from one of the table only in case is no verb, and the request fails. */
  lemma VerbComparedExactly(line: string, i: nat, cur: LedState)
    requires i < |Table|
    requires IEquals(Split(line)[0], Table[i].command) && Split(line)[0] != Table[i].command
    ensures Execute(line, cur) == Transition(Reply(false, ""), cur)
  {
    var argv := Split(line);
    forall j | 0 <= j < |Table|
      ensures argv[0] != Table[j].command
    {
      if IEquals(Table[j].command, Table[i].command) {
        VerbsDistinctUpToCase(j, i);
      }
    }
    ExecuteLooksUp(line, cur);
  }

  /** An empty line is one empty token, which is no verb. */
  lemma EmptyLineFails(cur: LedState)
    ensures Execute("", cur) == Transition(Reply(false, ""), cur)
  {
    assert Split("") == [""];
    ExecuteLooksUp("", cur);
    forall j | 0 <= j < |Table|
      ensures !Matches(Table[j], [""])
    {
      assert 0 <= j < 6;
      assert |Table[j].command| > 0;
    }
  }

  /** get-led-state always succeeds, changes nothing, and answers "on" or "off". */
  lemma GetStateAnswers(line: string, cur: LedState)
    requires Split(line) == ["get-led-state"]
    ensures Execute(line, cur) == Transition(Reply(true, OnOffName(cur.on)), cur)
  {
    ExecuteLooksUp(line, cur);
    LookupFinds(["get-led-state"], 1);
    assert DispatchByLookup(["get-led-state"], cur) == Transition(Reply(true, OnOffName(cur.on)), cur);
  }

  /** get-led-color always succeeds, changes nothing, and answers with the colour's name. */
  lemma GetColorAnswers(line: string, cur: LedState)
    requires Split(line) == ["get-led-color"]
    ensures Execute(line, cur) == Transition(Reply(true, ColorName(cur.color)), cur)
  {
    ExecuteLooksUp(line, cur);
    LookupFinds(["get-led-color"], 3);
    assert DispatchByLookup(["get-led-color"], cur) == Transition(Reply(true, ColorName(cur.color)), cur);
  }

  /** get-led-rate always succeeds, changes nothing, and answers with the rate in decimal. */
  lemma GetRateAnswers(line: string, cur: LedState)
    requires Split(line) == ["get-led-rate"]
    ensures Execute(line, cur) == Transition(Reply(true, NatToString(cur.rate)), cur)
  {
    ExecuteLooksUp(line, cur);
    LookupFinds(["get-led-rate"], 5);
    assert DispatchByLookup(["get-led-rate"], cur) == Transition(Reply(true, NatToString(cur.rate)), cur);
  }

  /** A line whose tokens an entry of the table serves runs that entry. */
  lemma ExecuteEntry(line: string, i: nat, cur: LedState)
    requires i < |Table| && Matches(Table[i], Split(line))
    ensures Execute(line, cur) == RunEntry(i, Split(line), cur)
  {
    ExecuteLooksUp(line, cur);
    LookupFinds(Split(line), i);
  }

  /** set-led-state: "on" or "off" in any case sets the flag and succeeds; any other argument fails and changes nothing. */
  lemma SetStateLine(line: string, arg: string, cur: LedState)
    requires Split(line) == ["set-led-state", arg]
    ensures Execute(line, cur) ==
      if IEquals(arg, "on") then Transition(Reply(true, ""), cur.(on := true))
      else if IEquals(arg, "off") then Transition(Reply(true, ""), cur.(on := false))
      else Transition(Reply(false, ""), cur)
  {
    ExecuteEntry(line, 0, cur);
  }

  /** set-led-color: a colour name in any case sets the colour and succeeds; any other argument fails and changes nothing. */
  lemma SetColorLine(line: string, arg: string, cur: LedState)
    requires Split(line) == ["set-led-color", arg]
    ensures Execute(line, cur) ==
      if IEquals(arg, "red") then Transition(Reply(true, ""), cur.(color := Red))
      else if IEquals(arg, "blue") then Transition(Reply(true, ""), cur.(color := Blue))
      else if IEquals(arg, "green") then Transition(Reply(true, ""), cur.(color := Green))
      else Transition(Reply(false, ""), cur)
  {
    ExecuteEntry(line, 2, cur);
  }

  /** set-led-rate: std::stoi's value in MinRate..MaxRate becomes the rate, any other value fails, and its exception ends the server. */
  lemma SetRateLine(line: string, arg: string, cur: LedState)
    requires Split(line) == ["set-led-rate", arg]
    ensures Execute(line, cur) ==
      match Stoi(arg)
      case Threw(e) => Transition(Abort(e), cur)
      case Parsed(v) =>
        if MinRate <= v <= MaxRate then Transition(Reply(true, ""), cur.(rate := v))
        else Transition(Reply(false, ""), cur)
  {
    ExecuteEntry(line, 4, cur);
  }

  /** set-led-state with "on" or "off" in any case succeeds, and get-led-state then answers with the lower-case word. */
  lemma SetStateThenGet(setLine: string, arg: string, getLine: string, cur: LedState)
    requires Split(setLine) == ["set-led-state", arg]
    requires IEquals(arg, "on") || IEquals(arg, "off")
    requires Split(getLine) == ["get-led-state"]
    ensures var t := Execute(setLine, cur);
      && t == Transition(Reply(true, ""), cur.(on := IEquals(arg, "on")))
      && Execute(getLine, t.next) == Transition(Reply(true, if IEquals(arg, "on") then "on" else "off"), t.next)
  {
    SetStateLine(setLine, arg, cur);
    GetStateAnswers(getLine, cur.(on := IEquals(arg, "on")));
  }

  /** set-led-color with a colour name in any case succeeds, and get-led-color then answers with that colour's lower-case name. */
  lemma SetColorThenGet(setLine: string, arg: string, c: LedColor, getLine: string, cur: LedState)
    requires Split(setLine) == ["set-led-color", arg]
    requires IEquals(arg, ColorName(c))
    requires Split(getLine) == ["get-led-color"]
    ensures var t := Execute(setLine, cur);
      && t == Transition(Reply(true, ""), cur.(color := c))
      && Execute(getLine, t.next) == Transition(Reply(true, ColorName(c)), t.next)
  {
    SetColorLine(setLine, arg, cur);
    var d := if IEquals(arg, "red") then Red else if IEquals(arg, "blue") then Blue else Green;
    ColorNameUnique(arg, c, d);
    GetColorAnswers(getLine, cur.(color := c));
  }

  /** No argument names two colours. */
  lemma ColorNameUnique(arg: string, c: LedColor, d: LedColor)
    requires IEquals(arg, ColorName(c)) && IEquals(arg, ColorName(d))
    ensures c == d
  {
    IEqualsSymmetric(arg, ColorName(c));
    IEqualsAgree(ColorName(c), arg, ColorName(d));
  }

  /**
   * set-led-rate with a number written in decimal succeeds exactly when the
   * number is in MinRate..MaxRate, and a number too large for an int ends the
   * server.
   */
  lemma SetRateOutcome(line: string, n: nat, cur: LedState)
    requires Split(line) == ["set-led-rate", NatToString(n)]
    ensures var t := Execute(line, cur);
      && t.outcome == (if n > IntMax then Abort(OutOfRange) else Reply(MinRate <= n <= MaxRate, ""))
      && t.next == (if MinRate <= n <= MaxRate then cur.(rate := n) else cur)
  {
    StoiOfNatToString(n);
    SetRateLine(line, NatToString(n), cur);
  }

  /** A rate set in range is what get-led-rate then writes back. */
  lemma SetRateThenGet(setLine: string, n: nat, getLine: string, cur: LedState)
    requires MinRate <= n <= MaxRate
    requires Split(setLine) == ["set-led-rate", NatToString(n)]
    requires Split(getLine) == ["get-led-rate"]
    ensures var t := Execute(setLine, cur);
      t == Transition(Reply(true, ""), cur.(rate := n))
      && Execute(getLine, t.next) == Transition(Reply(true, NatToString(n)), t.next)
  {
    SetRateOutcome(setLine, n, cur);
    GetRateAnswers(getLine, cur.(rate := n));
  }

  /** set-led-rate with a negative number fails and changes nothing, or ends the server when an int cannot hold it. */
  lemma SetRateNegative(line: string, n: nat, cur: LedState)
    requires Split(line) == ["set-led-rate", "-" + NatToString(n)]
    ensures Execute(line, cur) == Transition(if n <= -IntMin then Reply(false, "") else Abort(OutOfRange), cur)
  {
    StoiOfNegated(n);
    SetRateLine(line, "-" + NatToString(n), cur);
  }

  /** set-led-rate with an argument that has no digit up front lets std::stoi's exception end the server. */
  lemma SetRateNonNumeric(line: string, arg: string, cur: LedState)
    requires Split(line) == ["set-led-rate", arg]
    requires arg == [] || (!IsDigit(arg[0]) && arg[0] != '+' && arg[0] != '-')
    ensures Execute(line, cur) == Transition(Abort(InvalidArgument), cur)
  {
    assert NoSpace(Split(line)[1]);
    StoiRejectsNonNumeric(arg);
    SetRateLine(line, arg, cur);
  }

  /** std::stoi stops at the first non-digit, so a rate in range followed by other characters is accepted. */
  lemma SetRateTrailingCharacters(line: string, n: nat, rest: string, cur: LedState)
    requires MinRate <= n <= MaxRate
    requires rest != [] && !IsDigit(rest[0])
    requires Split(line) == ["set-led-rate", NatToString(n) + rest]
    ensures Execute(line, cur) == Transition(Reply(true, ""), cur.(rate := n))
  {
    StoiStopsAtNonDigit("", NatToString(n), rest);
    StoiOfNatToString(n);
    assert "" + NatToString(n) + rest == NatToString(n) + rest && "" + NatToString(n) == NatToString(n);
    SetRateLine(line, NatToString(n) + rest, cur);
  }

  /** A one-argument verb followed by a single whitespace character splits into the verb and one empty argument. */
  lemma SplitVerbThenSpace(verb: string, c: char)
    requires NoSpace(verb) && IsSpace(c)
    ensures Split(verb + [c]) == [verb, ""]
  {
    SplitOneWord(verb);
    SplitTrailingSeparator(verb, c);
  }

  /**
   * A one-argument verb whose argument is missing but which is followed by a
   * whitespace character (a trailing space, a '\r') gets one empty argument
   * and so passes the arity test: set-led-state and set-led-color then fail
   * and change nothing, and set-led-rate ends the server, since std::stoi
   * rejects the empty string.
   */
  lemma MissingArgument(verb: string, c: char, cur: LedState)
    requires verb == "set-led-state" || verb == "set-led-color" || verb == "set-led-rate"
    requires IsSpace(c)
    ensures Execute(verb + [c], cur)
      == Transition(if verb == "set-led-rate" then Abort(InvalidArgument) else Reply(false, ""), cur)
  {
    assert NoSpace(verb);
    SplitVerbThenSpace(verb, c);
    if verb == "set-led-state" {
      SetStateLine(verb + [c], "", cur);
    } else if verb == "set-led-color" {
      SetColorLine(verb + [c], "", cur);
    } else {
      SetRateNonNumeric(verb + [c], "", cur);
    }
  }

  /** Arguments are compared without regard to case: two arguments equal up to case have the same effect. */
  lemma ArgumentCaseInsensitive(lineA: string, lineB: string, verb: string, a: string, b: string, cur: LedState)
    requires verb == "set-led-state" || verb == "set-led-color"
    requires Split(lineA) == [verb, a] && Split(lineB) == [verb, b]
    requires IEquals(a, b)
    ensures Execute(lineA, cur) == Execute(lineB, cur)
  {
    forall w: string
      ensures IEquals(a, w) <==> IEquals(b, w)
    {
      IEqualsAgree(a, b, w);
    }
    if verb == "set-led-state" {
      SetStateLine(lineA, a, cur);
      SetStateLine(lineB, b, cur);
    } else {
      SetColorLine(lineA, a, cur);
      SetColorLine(lineB, b, cur);
    }
  }
}
