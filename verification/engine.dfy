/**
 * The `MettlerToledoSim` class: the connection state, the transport it
 * drives, and the `state` / `rx` / `tx` / `error` events it emits, with the
 * port's `data`, `error` and `close` callbacks as methods called in sequence.
 */
module Engine {
  import opened Wrappers
  import opened Text
  import opened Normalizer
  import opened Dispatcher

  /** The connection states; `Opening`, `Initializing` and `Online` are named but never entered. */
  datatype ConnState = Closed | Opening | Offline | Initializing | Online | Closing

  /** An emitted event; the UTC timestamp every event carries is not modelled. */
  datatype Event =
    | StateEvent(to: ConnState)
    | RxEvent(payload: string)
    | TxEvent(payload: string)
    | ErrorEvent(payload: string, error: Option<string>)

  /** What the simulator asks of the serial port. */
  datatype PortOp = WritePort(bytes: string) | CloseRequest

  /** How `new SerialPort(...)` ends inside `open`. */
  datatype OpenOutcome = Constructed | ConstructorThrew(reason: string)

  // ---------------------------------------------------------------------
  // The state as seen through the event log
  // ---------------------------------------------------------------------

  /** The `state` events of a log, in order. */
  function StateTrace(evs: seq<Event>): seq<ConnState>
  {
    if evs == [] then []
    else
      var last := evs[|evs| - 1];
      StateTrace(evs[..|evs| - 1]) + (if last.StateEvent? then [last.to] else [])
  }

  /** The state an observer of the log believes current: that of the last `state` event, `Closed` before any. */
  function CurrentState(evs: seq<Event>): ConnState
  {
    var t := StateTrace(evs);
    if t == [] then Closed else t[|t| - 1]
  }

  /** Appending to the log appends the new `state` events to the trace. */
  lemma {:induction false} StateTraceAppend(a: seq<Event>, b: seq<Event>)
    ensures StateTrace(a + b) == StateTrace(a) + StateTrace(b)
    decreases |b|
  {
    if b == [] {
      assert a + b == a;
    } else {
      assert (a + b)[..|a + b| - 1] == a + b[..|b| - 1];
      StateTraceAppend(a, b[..|b| - 1]);
    }
  }

  /** A `state` event sets what an observer believes; any other event leaves it. */
  lemma CurrentStateAfter(evs: seq<Event>, e: Event)
    ensures CurrentState(evs + [e]) == if e.StateEvent? then e.to else CurrentState(evs)
  {
    StateTraceAppend(evs, [e]);
    assert StateTrace([e]) == (if e.StateEvent? then [e.to] else []) by {
      assert [e][..0] == [];
    }
  }

  // ---------------------------------------------------------------------
  // The reply to one received line
  // ---------------------------------------------------------------------

  /** The response the read handler writes for a received line, `None` when it writes nothing. */
  function Reply(p: InstrumentProfile, line: string, seconds: Second): Option<string>
  {
    var inp := Clean(line);
    if inp == [] then None
    else match CommandId(inp)
      case None => None
      case Some(cmd) => Some(Dispatch(p, cmd, seconds))
  }

  lemma AppendTwo<T>(a: seq<T>, x: T, y: T)
    ensures a + [x] + [y] == a + [x, y]
  {
  }

  /** `Reply` step by step, as the read handler computes it. */
  lemma ReplySteps(p: InstrumentProfile, line: string, seconds: Second)
    ensures Clean(line) == [] ==> Reply(p, line, seconds) == None
    ensures Clean(line) != [] ==>
              FirstWord(Clean(line)) != []
              && Reply(p, line, seconds) == Some(Dispatch(p, ReplaceFirst(FirstWord(Clean(line)), "SI", "S"), seconds))
  {
    CleanSpec(line);
  }

  /** A line gets a response exactly when it is not blank once LF, CR and ESC are stripped. */
  lemma ReplyIffNotBlank(p: InstrumentProfile, line: string, seconds: Second)
    ensures Reply(p, line, seconds).Some? <==> !AllWhite(StripControls(line))
  {
    CleanSpec(line);
    if Clean(line) != [] {
      MatchNeverFails(line);
    }
  }

  /** The reset command `@` (followed by anything without another `@`) is answered as `I4`. */
  lemma AtAnsweredAsI4(p: InstrumentProfile, u: string, seconds: Second)
    requires '@' !in u
    ensures Reply(p, "@" + u, seconds) == Reply(p, "I4" + u, seconds)
  {
    AtCleanedToI4(u);
  }

  /** Cleaning rewrites a leading `@` to `I4`, so `@...` and `I4...` clean to the same input. */
  lemma AtCleanedToI4(u: string)
    requires '@' !in u
    ensures Clean("@" + u) == Clean("I4" + u)
  {
    AtLineCleaned(u);
    I4LineCleaned(u);
  }

  lemma AtLineCleaned(u: string)
    ensures Clean("@" + u) == "I4" + TrimEnd(StripControls(u))
  {
    var t := TrimEnd(StripControls(u));
    CleanAfterWord("@", u);
    assert FirstOccurrence("@" + t, "@", 0) && ("@" + t)[1..] == t;
  }

  lemma I4LineCleaned(u: string)
    requires '@' !in u
    ensures Clean("I4" + u) == "I4" + TrimEnd(StripControls(u))
  {
    var t := TrimEnd(StripControls(u));
    NoAtAfterCleaning(u);
    CharAbsent(t, '@');
    CleanAfterWord("I4", u);
    ReplaceFirstSkipsPrefix("I4", t, "@", "I4");
    ReplaceFirstSpec(t, "@", "I4");
  }

  lemma NoAtAfterCleaning(u: string)
    requires '@' !in u
    ensures '@' !in TrimEnd(StripControls(u))
  {
    StripKeeps(u);
    TrimEndSpec(StripControls(u));
  }

  /** Cleaning a line that starts with a word free of LF, CR and ESC keeps the word and cleans the rest. */
  lemma CleanAfterWord(x: string, u: string)
    requires x != [] && !IsWhite(x[0]) && !IsWhite(x[|x| - 1])
    requires '\n' !in x && '\r' !in x && ESC !in x
    ensures Clean(x + u) == ReplaceFirst(x + TrimEnd(StripControls(u)), "@", "I4")
  {
    var v := StripControls(u);
    StripAfterWord(x, u);
    assert TrimStart(x + v) == x + v;
    TrimEndAfterWord(x, v);
  }

  /** Control stripping passes over a prefix holding no LF, CR or ESC. */
  lemma StripAfterWord(x: string, u: string)
    requires '\n' !in x && '\r' !in x && ESC !in x
    ensures StripControls(x + u) == x + StripControls(u)
  {
    ReplaceFirstSkipsPrefix(x, u, "\n", "");
    var a := ReplaceFirst(u, "\n", "");
    ReplaceFirstSkipsPrefix(x, a, "\r", "");
    var b := ReplaceFirst(a, "\r", "");
    ReplaceFirstSkipsPrefix(x, b, [ESC], "");
  }

  /** `SI` is answered as the scale-value command `S`: `S S <weight> KG`. */
  lemma SIAnsweredAsS(p: InstrumentProfile, seconds: Second)
    ensures Reply(p, "SI", seconds) == Reply(p, "S", seconds) == Some("S S " + WeightField(seconds) + " KG")
  {
    CleanPlainWord("SI");
    CommandIdSI();
    ReplyOfCommand(p, "SI", "SI", "S", seconds);
    CleanPlainWord("S");
    CommandIdS();
    ReplyOfCommand(p, "S", "S", "S", seconds);
  }

  lemma CommandIdSI()
    ensures CommandId("SI") == Some("S")
  {
    SIPrefixBecomesS("");
    assert "SI" + "" == "SI" && "S" + FirstWord("") == "S";
  }

  lemma CommandIdS() ensures CommandId("S") == Some("S") { PlainCommandId("S"); }

  /** A line whose cleaned form has command ID `cmd` is answered with the response to `cmd`. */
  lemma ReplyOfCommand(p: InstrumentProfile, line: string, inp: string, cmd: string, seconds: Second)
    requires Clean(line) == inp && CommandId(inp) == Some(cmd)
    ensures Reply(p, line, seconds) == Some(Dispatch(p, cmd, seconds))
  {
  }

  /** A word without `SI` is its own command ID. */
  lemma PlainCommandId(w: string)
    requires w != [] && NoWhite(w)
    requires Absent(w, "SI")
    ensures CommandId(w) == Some(w)
  {
    FirstWordSpec(w);
    assert FirstWord(w) == w;
    ReplaceFirstSpec(w, "SI", "S");
  }

  /** The `SI` rewrite is not limited to a prefix: its first occurrence anywhere in the word becomes `S`. */
  lemma SIRewrittenInsideWord()
    ensures CommandId("XSI") == Some("XS")
  {
    var w := "XSI";
    assert FirstWord(w) == w by {
      assert FirstWord(w[1..]) == w[1..] by {
        assert w[1..][1..] == "I";
        assert FirstWord("I") == "I" by { assert "I"[1..] == ""; }
      }
    }
    assert w[1..3] == "SI" && w[0..2] != "SI";
    assert FirstOccurrence(w, "SI", 1);
    ReplaceFirstSpec(w, "SI", "S");
    assert w[..1] + "S" + w[3..] == "XS";
  }

  /** A word free of white space, LF, CR, ESC and `@` is its own cleaned form. */
  lemma CleanPlainWord(w: string)
    requires w != [] && forall i :: 0 <= i < |w| ==> !IsWhite(w[i]) && w[i] != ESC && w[i] != '@'
    ensures Clean(w) == w
  {
    assert '\n' !in w && '\r' !in w && ESC !in w && '@' !in w;
    CharAbsent(w, '\n');
    CharAbsent(w, '\r');
    CharAbsent(w, ESC);
    CharAbsent(w, '@');
    ReplaceFirstSpec(w, "\n", "");
    ReplaceFirstSpec(w, "\r", "");
    ReplaceFirstSpec(w, [ESC], "");
    ReplaceFirstSpec(w, "@", "I4");
    assert StripControls(w) == w;
    assert TrimStart(w) == w;
    assert TrimEnd(w) == w;
  }

  // ---------------------------------------------------------------------
  // The simulator
  // ---------------------------------------------------------------------

  /**
   * `MettlerToledoSim`. The serial port is reduced to what the simulator sees
   * of it: whether one was created (`this.port !== null`), its `isOpen` flag,
   * and the operations asked of it (`portOps`). Emitted events are appended
   * to `events`.
   */
  class MettlerToledoSim {
    var state: ConnState
    const profile: InstrumentProfile
    var hasPort: bool
    var portOpen: bool
    var portOps: seq<PortOp>
    var events: seq<Event>

    /** The state field is what the `state` events announced last, and only a created port can be open. */
    ghost predicate Valid()
      reads this
    {
      state == CurrentState(events) && (portOpen ==> hasPort)
    }

    /** Lines 16-35: starts `Closed`, without a port, with the fixed profile. */
    constructor ()
      ensures Valid()
      ensures state == Closed && profile == MeterConfig
      ensures !hasPort && !portOpen && portOps == [] && events == []
    {
      state := Closed;
      profile := MeterConfig;
      hasPort := false;
      portOpen := false;
      portOps := [];
      events := [];
    }

    /** Lines 75-79: the only place the state changes; each change emits one `state` event. */
    method SetState(newState: ConnState)
      requires Valid()
      modifies this`state, this`events
      ensures Valid()
      ensures state == newState && events == old(events) + [StateEvent(newState)]
    {
      state := newState;
      events := events + [StateEvent(state)];
      CurrentStateAfter(old(events), StateEvent(newState));
    }

    /**
     * Lines 37-62: creates the port, wires its callbacks and goes `Offline`;
     * if the port constructor throws, emits `error` and goes `Closed`.
     * `Opening` is never entered.
     */
    method Open(outcome: OpenOutcome)
      requires Valid()
      modifies this`state, this`events, this`hasPort, this`portOpen
      ensures Valid()
      ensures outcome.Constructed? ==>
                hasPort && !portOpen && state == Offline
                && events == old(events) + [StateEvent(Offline)]
      ensures outcome.ConstructorThrew? ==>
                hasPort == old(hasPort) && portOpen == old(portOpen) && state == Closed
                && events == old(events) + [ErrorEvent("Port Failed to open: ", Some(outcome.reason)), StateEvent(Closed)]
      ensures StateTrace(events) == StateTrace(old(events)) + [state]
      ensures portOps == old(portOps)
    {
      match outcome
      case Constructed =>
        hasPort := true;
        portOpen := false;
        SetState(Offline);
        StateTraceAppend(old(events), [StateEvent(Offline)]);
      case ConstructorThrew(reason) =>
        var e := ErrorEvent("Port Failed to open: ", Some(reason));
        CurrentStateAfter(events, e);
        events := events + [e];
        SetState(Closed);
        StateTraceAppend(old(events), [e, StateEvent(Closed)]);
    }

    /**
     * Lines 65-72: goes `Closing`; an open port is asked to close (its `close`
     * callback will announce `Closed`), otherwise `Closed` is announced at once.
     * The transport's `isOpen` reads false from the moment `port.close()` is
     * called, so a second close, or a port error, while that close is pending
     * takes the second branch.
     */
    method Close()
      requires Valid() && hasPort
      modifies this`state, this`events, this`portOps, this`portOpen
      ensures Valid() && !portOpen
      ensures old(portOpen) ==>
                state == Closing && events == old(events) + [StateEvent(Closing)]
                && portOps == old(portOps) + [CloseRequest]
      ensures !old(portOpen) ==>
                state == Closed && events == old(events) + [StateEvent(Closing), StateEvent(Closed)]
                && portOps == old(portOps)
      ensures StateTrace(events) == StateTrace(old(events)) + if old(portOpen) then [Closing] else [Closing, Closed]
    {
      SetState(Closing);
      if portOpen {
        portOps := portOps + [CloseRequest];
        portOpen := false;
        StateTraceAppend(old(events), [StateEvent(Closing)]);
      } else {
        SetState(Closed);
        StateTraceAppend(old(events), [StateEvent(Closing), StateEvent(Closed)]);
      }
    }

    /** Lines 50-53, the port's `error` callback: emits `error`, then closes. */
    method OnPortError(msg: string)
      requires Valid() && hasPort
      modifies this`state, this`events, this`portOps, this`portOpen
      ensures Valid() && !portOpen
      ensures old(portOpen) ==>
                state == Closing
                && events == old(events) + [ErrorEvent("Port Error: " + msg, None), StateEvent(Closing)]
                && portOps == old(portOps) + [CloseRequest]
      ensures !old(portOpen) ==>
                state == Closed
                && events == old(events) + [ErrorEvent("Port Error: " + msg, None), StateEvent(Closing), StateEvent(Closed)]
                && portOps == old(portOps)
    {
      var e := ErrorEvent("Port Error: " + msg, None);
      CurrentStateAfter(events, e);
      events := events + [e];
      Close();
    }

    /** Lines 54-56, the port's `close` callback: the port is no longer open and `Closed` is announced. */
    method OnPortClose()
      requires Valid() && hasPort
      modifies this`state, this`events, this`portOpen
      ensures Valid()
      ensures !portOpen && state == Closed && events == old(events) + [StateEvent(Closed)]
    {
      portOpen := false;
      SetState(Closed);
    }

    /**
     * The transport finishing its own (asynchronous) open: `port.isOpen`
     * becomes true. The simulator registers no handler for it, so nothing is
     * emitted.
     */
    method PortOpenCompleted()
      requires Valid() && hasPort
      modifies this`portOpen
      ensures Valid() && portOpen
    {
      portOpen := true;
    }

    /** Lines 136-139: the port gets the response with CR LF, the `tx` event gets it without. */
    method Write(out: string)
      requires Valid() && hasPort
      modifies this`portOps, this`events
      ensures Valid()
      ensures portOps == old(portOps) + [WritePort(out + "\r\n")]
      ensures events == old(events) + [TxEvent(out)]
    {
      portOps := portOps + [WritePort(out + "\r\n")];
      CurrentStateAfter(events, TxEvent(out));
      events := events + [TxEvent(out)];
    }

    /**
     * Lines 82-134, the port's `data` callback for one delimited line: a blank
     * line is ignored; otherwise `rx` carries the cleaned line and the
     * response is written. The state is not consulted and not changed.
     */
    method Read(line: string, seconds: Second)
      requires Valid() && hasPort
      modifies this`portOps, this`events
      ensures Valid()
      ensures Reply(profile, line, seconds).None? ==> events == old(events) && portOps == old(portOps)
      ensures Reply(profile, line, seconds).Some? ==>
                var response := Reply(profile, line, seconds).value;
                events == old(events) + [RxEvent(Clean(line)), TxEvent(response)]
                && portOps == old(portOps) + [WritePort(response + "\r\n")]
    {
      ReplySteps(profile, line, seconds);
      var inp := Clean(line);
      if |inp| == 0 {
        return;
      }
      ghost var before := events;
      CurrentStateAfter(events, RxEvent(inp));
      events := events + [RxEvent(inp)];
      var matched := FirstWord(inp);
      if |matched| == 0 {
        return;
      }
      var cmdID := ReplaceFirst(matched, "SI", "S");
      var response := Dispatch(profile, cmdID, seconds);
      Write(response);
      AppendTwo(before, RxEvent(inp), TxEvent(response));
    }
  }

  /**
   * A session as an observer sees it: open, the port comes up, and a line
   * that cleans to `I4` (such as `I4` CR LF, see `I4LineAnswered`) arrives;
   * the serial number goes back.
   */
  method SerialNumberSession(line: string, seconds: Second) returns (events: seq<Event>, portOps: seq<PortOp>)
    requires Clean(line) == "I4"
    ensures events == [StateEvent(Offline), RxEvent("I4"), TxEvent("I4 A \"X12345678\"")]
    ensures portOps == [WritePort("I4 A \"X12345678\"\r\n")]
  {
    var sim := new MettlerToledoSim();
    sim.Open(Constructed);
    sim.PortOpenCompleted();
    I4Reply(line, seconds);
    var response := "I4 A \"X12345678\"";
    sim.Read(line, seconds);
    assert sim.events == [StateEvent(Offline)] + [RxEvent("I4"), TxEvent(response)];
    assert response + "\r\n" == "I4 A \"X12345678\"\r\n";
    events, portOps := sim.events, sim.portOps;
  }

  /**
   * Closing twice while the first close is still pending: the port is asked
   * to close once, and the second call announces `Closing` then `Closed` at
   * once, before the port's own `close` callback has run.
   */
  method CloseWhilePending() returns (events: seq<Event>, portOps: seq<PortOp>)
    ensures events == [StateEvent(Offline), StateEvent(Closing), StateEvent(Closing), StateEvent(Closed)]
    ensures portOps == [CloseRequest]
  {
    var sim := new MettlerToledoSim();
    sim.Open(Constructed);
    sim.PortOpenCompleted();
    sim.Close();
    sim.Close();
    events, portOps := sim.events, sim.portOps;
  }

  /** Any line that cleans to `I4` is answered with the serial number. */
  lemma I4Reply(line: string, seconds: Second)
    requires Clean(line) == "I4"
    ensures Reply(MeterConfig, line, seconds) == Some("I4 A \"X12345678\"")
  {
    CommandIdI4();
    ReplyOfCommand(MeterConfig, line, "I4", "I4", seconds);
    MeterConfigIdentity(seconds);
  }

  /** `I4` CR LF cleans to `I4` and is answered with the serial number. */
  lemma I4LineAnswered(seconds: Second)
    ensures Clean("I4\r\n") == "I4"
    ensures Reply(MeterConfig, "I4\r\n", seconds) == Some("I4 A \"X12345678\"")
  {
    CleanI4Line();
    I4Reply("I4\r\n", seconds);
  }

  lemma CleanI4Line()
    ensures Clean("I4\r\n") == "I4"
  {
    var crlf := "\r\n";
    assert crlf[0] != '@' && crlf[1] != '@';
    StripCRLF();
    I4BlankTail(crlf);
    assert "I4" + crlf == "I4\r\n";
  }

  /** `I4` followed by a tail that strips to white space cleans to `I4`. */
  lemma I4BlankTail(u: string)
    requires '@' !in u && StripControls(u) == []
    ensures Clean("I4" + u) == "I4"
  {
    I4LineCleaned(u);
    assert TrimEnd([]) == [];
  }

  /** The line terminator CR LF is stripped completely. */
  lemma StripCRLF()
    ensures StripControls("\r\n") == []
  {
    var s := "\r\n";
    assert s[..1] == "\r";
    FirstCharOccurrence(s, '\n', 1);
    ReplaceFirstSpec(s, "\n", "");
    assert s[..1] + "" + s[2..] == "\r";
    FirstCharOccurrence("\r", '\r', 0);
    ReplaceFirstSpec("\r", "\r", "");
    assert "\r"[..0] + "" + "\r"[1..] == [];
    CharAbsent([], ESC);
    ReplaceFirstSpec([], [ESC], "");
  }

  lemma CommandIdI4()
    ensures CommandId("I4") == Some("I4")
  {
    NoSNoSI("I4");
    PlainCommandId("I4");
  }

  /** A word without the letter `S` contains no `SI`. */
  lemma NoSNoSI(w: string)
    requires 'S' !in w
    ensures Absent(w, "SI")
  {
    forall j | 0 <= j <= |w| ensures !OccursAt(w, "SI", j) {
      if j + 2 <= |w| { assert w[j..j + 2][0] == w[j]; }
    }
  }

  /** `c` at index `i` with no `c` before it is the first occurrence of the pattern `[c]`. */
  lemma FirstCharOccurrence(s: string, c: char, i: nat)
    requires i < |s| && s[i] == c && c !in s[..i]
    ensures FirstOccurrence(s, [c], i)
  {
    assert s[i..i + 1] == [c];
    forall j | 0 <= j < i ensures !OccursAt(s, [c], j) {
      assert s[j..j + 1][0] == s[..i][j];
    }
  }
}
