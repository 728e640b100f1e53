/**
 * The command table of ledsrv.cpp (gRequests), its six handlers, the
 * request dispatch as a function of the request line and the current LED
 * state, and the reply line written for each request.
 */
module Requests {

  import opened Wrappers
  import opened Led
  import opened Text

  // ---------------------------------------------------------------------------
  // The command table

  /** Which of the six handler lambdas a table entry carries. */
  datatype Handler =
    | SetStateHandler | GetStateHandler
    | SetColorHandler | GetColorHandler
    | SetRateHandler | GetRateHandler

  /** LedRequestDesc: the verb, the number of arguments after it, the handler. */
  datatype RequestDesc = RequestDesc(command: string, nargs: nat, handler: Handler)

  /** gRequests, in the source's order. */
  const Table: seq<RequestDesc> := [
    RequestDesc("set-led-state", 1, SetStateHandler),
    RequestDesc("get-led-state", 0, GetStateHandler),
    RequestDesc("set-led-color", 1, SetColorHandler),
    RequestDesc("get-led-color", 0, GetColorHandler),
    RequestDesc("set-led-rate", 1, SetRateHandler),
    RequestDesc("get-led-rate", 0, GetRateHandler)
  ]

  /** The number of arguments a handler's body reads: the setters assert argv.size() == 2. */
  function Arity(h: Handler): nat {
    match h
    case SetStateHandler | SetColorHandler | SetRateHandler => 1
    case GetStateHandler | GetColorHandler | GetRateHandler => 0
  }

  /** Each entry's declared arity is the one its handler expects, and no verb appears twice. */
  lemma TableWellFormed()
    ensures forall i :: 0 <= i < |Table| ==> Table[i].nargs == Arity(Table[i].handler)
    ensures forall i, j :: 0 <= i < j < |Table| ==> Table[i].command != Table[j].command
  {
    forall i, j | 0 <= i < j < |Table|
      ensures Table[i].command != Table[j].command
    {
      assert 0 <= i < 6 && 0 <= j < 6;
      assert Table[i].command[0] != Table[j].command[0] || Table[i].command[8] != Table[j].command[8];
    }
  }

  // ---------------------------------------------------------------------------
  // The handlers

  /** What a handler does to the copy of the state it is given, or the exception it lets out. */
  datatype HandlerResult =
    | Handled(ok: bool, output: string, led: LedState)
    | Raised(error: StoiError)

  /** The words get-led-state answers with. */
  function OnOffName(on: bool): string {
    if on then "on" else "off"
  }

  /** The words get-led-color answers with. */
  function ColorName(c: LedColor): string {
    match c
    case Red => "red"
    case Green => "green"
    case Blue => "blue"
  }

  /** set-led-state: "on" or "off", in any case, sets the flag; any other argument fails. */
  function SetLedState(argv: seq<string>, led: LedState): HandlerResult
    requires |argv| == 2
  {
    var arg := argv[1];
    if IEquals(arg, "on") then Handled(true, "", led.(on := true))
    else if IEquals(arg, "off") then Handled(true, "", led.(on := false))
    else Handled(false, "", led)
  }

  /** get-led-state: always succeeds, changes nothing, and names the flag. */
  function GetLedState(led: LedState): (r: HandlerResult)
    ensures r.Handled? && r.ok && r.led == led
    ensures r.output == OnOffName(led.on)
  {
    Handled(true, if led.on then "on" else "off", led)
  }

  /** set-led-color: a colour name, in any case, sets the colour; any other argument fails. */
  function SetLedColor(argv: seq<string>, led: LedState): HandlerResult
    requires |argv| == 2
  {
    var arg := argv[1];
    if IEquals(arg, "red") then Handled(true, "", led.(color := Red))
    else if IEquals(arg, "blue") then Handled(true, "", led.(color := Blue))
    else if IEquals(arg, "green") then Handled(true, "", led.(color := Green))
    else Handled(false, "", led)
  }

  /** get-led-color: always succeeds, changes nothing, and names the colour. */
  function GetLedColor(led: LedState): (r: HandlerResult)
    ensures r.Handled? && r.ok && r.led == led
    ensures r.output == ColorName(led.color)
  {
    match led.color
    case Red => Handled(true, "red", led)
    case Blue => Handled(true, "blue", led)
    case Green => Handled(true, "green", led)
  }

  /**
   * set-led-rate: std::stoi reads the argument; a value in 1..5 becomes the
   * rate, any other value fails, and an argument std::stoi rejects lets its
   * exception out.
   */
  function SetLedRate(argv: seq<string>, led: LedState): HandlerResult
    requires |argv| == 2
  {
    match Stoi(argv[1])
    case Threw(e) => Raised(e)
    case Parsed(arg) =>
      if arg < 1 || arg > 5 then Handled(false, "", led)
      else Handled(true, "", led.(rate := arg))
  }

  /** get-led-rate: always succeeds, changes nothing, and writes the rate in decimal. */
  function GetLedRate(led: LedState): (r: HandlerResult)
    ensures r.Handled? && r.ok && r.led == led
    ensures r.output == NatToString(led.rate)
  {
    Handled(true, NatToString(led.rate), led)
  }

  /** Runs the handler of a table entry on argv and a copy of the state. */
  function Handle(h: Handler, argv: seq<string>, led: LedState): HandlerResult
    requires |argv| == Arity(h) + 1
  {
    match h
    case SetStateHandler => SetLedState(argv, led)
    case GetStateHandler => GetLedState(led)
    case SetColorHandler => SetLedColor(argv, led)
    case GetColorHandler => GetLedColor(led)
    case SetRateHandler => SetLedRate(argv, led)
    case GetRateHandler => GetLedRate(led)
  }

  /**
   * set-led-state succeeds exactly for "on" and "off" in any case, then holds
   * the flag its argument names, touches nothing else, and writes nothing.
   */
  lemma SetLedStateSpec(argv: seq<string>, led: LedState)
    requires |argv| == 2
    ensures var r := SetLedState(argv, led);
      && r.Handled? && r.output == ""
      && (r.ok <==> IEquals(argv[1], "on") || IEquals(argv[1], "off"))
      && (r.ok ==> IEquals(argv[1], OnOffName(r.led.on)))
      && r.led.color == led.color && r.led.rate == led.rate
      && (!r.ok ==> r.led == led)
  {
  }

  /**
   * set-led-color succeeds exactly for a colour name in any case, then holds
   * the colour its argument names, touches nothing else, and writes nothing.
   */
  lemma SetLedColorSpec(argv: seq<string>, led: LedState)
    requires |argv| == 2
    ensures var r := SetLedColor(argv, led);
      && r.Handled? && r.output == ""
      && (r.ok <==> exists c: LedColor :: IEquals(argv[1], ColorName(c)))
      && (r.ok ==> IEquals(argv[1], ColorName(r.led.color)))
      && r.led.on == led.on && r.led.rate == led.rate
      && (!r.ok ==> r.led == led)
  {
    var arg := argv[1];
    if IEquals(arg, "red") {
      assert IEquals(arg, ColorName(Red));
    } else if IEquals(arg, "blue") {
      assert IEquals(arg, ColorName(Blue));
    } else if IEquals(arg, "green") {
      assert IEquals(arg, ColorName(Green));
    } else {
      forall c: LedColor
        ensures !IEquals(arg, ColorName(c))
      {
      }
    }
  }

  /**
   * set-led-rate raises exactly what std::stoi raises; otherwise it succeeds
   * exactly for a value in MinRate..MaxRate, which becomes the rate, touches
   * nothing else, and writes nothing.
   */
  lemma SetLedRateSpec(argv: seq<string>, led: LedState)
    requires |argv| == 2
    ensures var r := SetLedRate(argv, led);
      && (r.Raised? <==> Stoi(argv[1]).Threw?)
      && (r.Raised? ==> r.error == Stoi(argv[1]).error)
      && (r.Handled? ==> r.output == "" && (r.ok <==> MinRate <= Stoi(argv[1]).value <= MaxRate))
      && (r.Handled? && r.ok ==> r.led == led.(rate := Stoi(argv[1]).value))
      && (r.Handled? && !r.ok ==> r.led == led)
  {
  }

  /**
   * Every getter succeeds and changes nothing; only set-led-rate raises; and
   * a handler keeps the rate in range.
   */
  lemma HandleSpec(h: Handler, argv: seq<string>, led: LedState)
    requires |argv| == Arity(h) + 1
    ensures var r := Handle(h, argv, led);
      && (Arity(h) == 0 ==> r.Handled? && r.ok && r.led == led)
      && (r.Raised? ==> h == SetRateHandler)
      && (r.Handled? && ValidLed(led) ==> ValidLed(r.led))
  {
    match h
    case SetStateHandler => SetLedStateSpec(argv, led);
    case GetStateHandler =>
    case SetColorHandler => SetLedColorSpec(argv, led);
    case GetColorHandler =>
    case SetRateHandler => SetLedRateSpec(argv, led);
    case GetRateHandler =>
  }

  // ---------------------------------------------------------------------------
  // Dispatch

  /** A table entry serves a request when its verb is token 0, exactly, and its arity is the count of the other tokens. */
  predicate Matches(d: RequestDesc, argv: seq<string>)
    requires |argv| >= 1
  {
    argv[0] == d.command && |argv| - 1 == d.nargs
  }

  /** The first entry from index i on that serves argv. */
  function LookupFrom(argv: seq<string>, i: nat): (r: Option<nat>)
    requires |argv| >= 1 && i <= |Table|
    ensures r.Some? ==> i <= r.value < |Table| && Matches(Table[r.value], argv)
    ensures r.Some? ==> forall j :: i <= j < r.value ==> !Matches(Table[j], argv)
    ensures r.None? ==> forall j :: i <= j < |Table| ==> !Matches(Table[j], argv)
    decreases |Table| - i
  {
    if i == |Table| then None
    else if Matches(Table[i], argv) then Some(i)
    else LookupFrom(argv, i + 1)
  }

  /** The entry DispatchRequest runs for argv, if any. */
  function Lookup(argv: seq<string>): Option<nat>
    requires |argv| >= 1
  {
    LookupFrom(argv, 0)
  }

  /** An entry that serves argv is the one the lookup finds, since no verb appears twice. */
  lemma LookupFinds(argv: seq<string>, i: nat)
    requires |argv| >= 1 && i < |Table| && Matches(Table[i], argv)
    ensures Lookup(argv) == Some(i)
  {
    TableWellFormed();
  }

  /** What DispatchRequest reports: a success flag with the handler's output, or the exception that ends the server. */
  datatype Outcome = Reply(ok: bool, output: string) | Abort(error: StoiError)

  /** The outcome of one request and the authoritative state after it. */
  datatype Transition = Transition(outcome: Outcome, next: LedState)

  /**
   * The body of the search loop of DispatchRequest for entry i: run its
   * handler on a copy of the state, and commit the copy only when the
   * handler succeeded and the copy differs from the current state.
   */
  function RunEntry(i: nat, argv: seq<string>, cur: LedState): Transition
    requires |argv| >= 1 && i < |Table| && Matches(Table[i], argv)
  {
    TableWellFormed();
    match Handle(Table[i].handler, argv, cur)
    case Raised(e) => Transition(Abort(e), cur)
    case Handled(ok, output, led) =>
      Transition(Reply(ok, output), if ok && !SameLed(led, cur) then led else cur)
  }

  /**
   * The search loop of DispatchRequest over the first n entries: the first
   * of them that serves argv runs and ends the search; None when none does.
   */
  function DispatchUpTo(argv: seq<string>, n: nat, cur: LedState): Option<Transition>
    requires |argv| >= 1 && n <= |Table|
  {
    if n == 0 then None
    else match DispatchUpTo(argv, n - 1, cur)
      case Some(t) => Some(t)
      case None => if Matches(Table[n - 1], argv) then Some(RunEntry(n - 1, argv, cur)) else None
  }

  /** DispatchRequest on one request line: split it at every whitespace character, search the table, and fail when no entry serves it. */
  function Execute(line: string, cur: LedState): Transition {
    match DispatchUpTo(Split(line), |Table|, cur)
    case None => Transition(Reply(false, ""), cur)
    case Some(t) => t
  }

  /** The same request handled in two steps: look the entry up first, then run it. */
  function DispatchByLookup(argv: seq<string>, cur: LedState): Transition
    requires |argv| >= 1
  {
    match Lookup(argv)
    case None => Transition(Reply(false, ""), cur)
    case Some(i) => RunEntry(i, argv, cur)
  }

  /** The search over the first n entries runs the entry the lookup finds when it is among them, and none otherwise. */
  lemma {:induction false} DispatchUpToFinds(argv: seq<string>, n: nat, cur: LedState)
    requires |argv| >= 1 && n <= |Table|
    ensures var l := Lookup(argv);
      DispatchUpTo(argv, n, cur) == if l.Some? && l.value < n then Some(RunEntry(l.value, argv, cur)) else None
  {
    if n > 0 {
      DispatchUpToFinds(argv, n - 1, cur);
    }
  }

  /** Searching the table entry by entry and running the first entry that serves the request is looking it up, then running it. */
  lemma ExecuteLooksUp(line: string, cur: LedState)
    ensures Execute(line, cur) == DispatchByLookup(Split(line), cur)
  {
    DispatchUpToFinds(Split(line), |Table|, cur);
  }

  /**
   * A request no entry serves fails; a request that does not succeed leaves
   * the state as it was; only set-led-rate with an argument std::stoi
   * rejects ends the server; and the state stays a valid LED state.
   */
  lemma ExecuteFacts(line: string, cur: LedState)
    ensures var argv, t := Split(line), Execute(line, cur);
      && (Lookup(argv).None? ==> t == Transition(Reply(false, ""), cur))
      && (!(t.outcome.Reply? && t.outcome.ok) ==> t.next == cur)
      && (t.outcome.Abort? ==> argv[0] == "set-led-rate" && |argv| == 2 && Stoi(argv[1]).Threw?)
      && (ValidLed(cur) ==> ValidLed(t.next))
  {
    ExecuteLooksUp(line, cur);
    LookupFacts(Split(line), cur);
  }

  /** ExecuteFacts for a request already split into tokens. */
  lemma LookupFacts(argv: seq<string>, cur: LedState)
    requires |argv| >= 1
    ensures var t := DispatchByLookup(argv, cur);
      && (Lookup(argv).None? ==> t == Transition(Reply(false, ""), cur))
      && (!(t.outcome.Reply? && t.outcome.ok) ==> t.next == cur)
      && (t.outcome.Abort? ==> argv[0] == "set-led-rate" && |argv| == 2 && Stoi(argv[1]).Threw?)
      && (ValidLed(cur) ==> ValidLed(t.next))
  {
    match Lookup(argv)
    case None =>
    case Some(i) =>
      TableWellFormed();
      HandleSpec(Table[i].handler, argv, cur);
      var h := Handle(Table[i].handler, argv, cur);
      if h.Raised? {
        assert Table[i] == Table[4];
      }
  }

  // ---------------------------------------------------------------------------
  // The reply line

  /** The line main writes back for one request: "OK", a space and the output if there is one, or "FAILED". */
  function Response(ok: bool, output: string): string {
    if ok then "OK" + (if |output| > 0 then " " + output else "") + "\n"
    else "FAILED\n"
  }

  /** How a client reads a reply line back. */
  function ParseResponse(r: string): Option<(bool, string)> {
    if r == "FAILED\n" then Some((false, ""))
    else if r == "OK\n" then Some((true, ""))
    else if |r| > 4 && r[..3] == "OK " && r[|r| - 1] == '\n' then Some((true, r[3..|r| - 1]))
    else None
  }

  /** Every reply line reads back as the flag and, on success, the output it was made from. */
  lemma ResponseRoundTrip(ok: bool, output: string)
    ensures ParseResponse(Response(ok, output)) == Some((ok, if ok then output else ""))
  {
    var r := Response(ok, output);
    if ok && |output| > 0 {
      assert r == "OK " + output + "\n";
      assert r[..3] == "OK ";
      assert r[3..|r| - 1] == output;
      assert r[0] == 'O' && r != "FAILED\n";
      assert r != "OK\n";
    }
  }
}
