/**
 * `GestureController`: turns a recognised gesture into an HTTP POST whose
 * JSON body carries the mapped command, with one debounce interval shared by
 * all gestures. Time is integer ticks; what the POST did is an input.
 */
module GestureControl {
  import opened Wrappers

  /** What `requests.post` did: answered with a status, or raised. */
  datatype HttpOutcome =
    | Status(code: int)
    | Timeout          // requests.exceptions.Timeout
    | ConnectionError  // requests.exceptions.ConnectionError
    | OtherError       // any other exception

  /** An HTTP POST as issued: URL, JSON body, headers and timeout. */
  datatype Post = Post(url: string, json: map<string, string>, headers: map<string, string>, timeout: int)

  const JsonHeaders: map<string, string> := map["Content-Type" := "application/json"]

  /** The timeout `test_connection` passes to the POST. */
  const TestTimeout: int := 2

  /** The JSON body `{'command': command}`. */
  function CommandPayload(command: string): (json: map<string, string>)
    ensures json.Keys == {"command"} && json["command"] == command
  {
    map["command" := command]
  }

  /** The outcome of one `send_gesture_command` call: result, POST issued, new timestamp. */
  datatype Dispatch = Dispatch(sent: bool, request: Option<Post>, last: int)

  /**
   * One `send_gesture_command(gesture)` at time `now`, from timestamp `last`:
   * an unmapped gesture, or one inside the debounce interval, sends nothing;
   * otherwise the command is posted and only a 200 answer counts as sent and
   * moves the timestamp to `now`.
   */
  function SendGesture(url: string, commands: map<string, string>, debounce: int, timeout: int,
                       last: int, gesture: string, now: int, outcome: HttpOutcome): (d: Dispatch)
    ensures d.request.Some? <==> gesture in commands && now - last >= debounce
    ensures d.request.Some? ==> d.request.value == Post(url, CommandPayload(commands[gesture]), JsonHeaders, timeout)
    ensures d.sent <==> d.request.Some? && outcome == Status(200)
    ensures d.last == (if d.sent then now else last)
  {
    if gesture !in commands then Dispatch(false, None, last)
    else if now - last < debounce then Dispatch(false, None, last)
    else
      var request := Post(url, CommandPayload(commands[gesture]), JsonHeaders, timeout);
      if outcome == Status(200) then Dispatch(true, Some(request), now)
      else Dispatch(false, Some(request), last)
  }

  /** One call in a run of the controller. */
  datatype Call = Call(gesture: string, now: int, outcome: HttpOutcome)

  /** What a run of calls returned, and the timestamp after each call. */
  datatype Trace = Trace(sent: seq<bool>, lasts: seq<int>)

  /** The controller driven by `calls` in order, starting from timestamp `last`. */
  function Run(url: string, commands: map<string, string>, debounce: int, timeout: int,
               last: int, calls: seq<Call>): (t: Trace)
    ensures |t.sent| == |calls| && |t.lasts| == |calls|
    decreases |calls|
  {
    if calls == [] then Trace([], [])
    else
      var d := SendGesture(url, commands, debounce, timeout, last, calls[0].gesture, calls[0].now, calls[0].outcome);
      var t := Run(url, commands, debounce, timeout, d.last, calls[1..]);
      Trace([d.sent] + t.sent, [d.last] + t.lasts)
  }

  /** The clock never goes backwards along the calls. */
  ghost predicate Monotone(calls: seq<Call>) {
    forall i, j :: 0 <= i < j < |calls| ==> calls[i].now <= calls[j].now
  }

  /**
   * Every accepted send of a run happens at least one debounce interval
   * after the starting timestamp, and leaves the timestamp at its own time.
   */
  lemma {:induction false} SendsAfterDebounce(url: string, commands: map<string, string>, debounce: int,
                                              timeout: int, last: int, calls: seq<Call>)
    requires debounce >= 0
    ensures var t := Run(url, commands, debounce, timeout, last, calls);
            forall j :: 0 <= j < |calls| && t.sent[j] ==> calls[j].now - last >= debounce && t.lasts[j] == calls[j].now
    ensures var t := Run(url, commands, debounce, timeout, last, calls);
            forall j :: 0 <= j < |calls| ==> t.lasts[j] >= last
    decreases |calls|
  {
    if calls != [] {
      var d := SendGesture(url, commands, debounce, timeout, last, calls[0].gesture, calls[0].now, calls[0].outcome);
      SendsAfterDebounce(url, commands, debounce, timeout, d.last, calls[1..]);
      assert d.last >= last;
    }
  }

  /**
   * Between any two calls of a run that return True, at least the debounce
   * interval has elapsed (with a non-negative interval, whatever the clock does).
   */
  lemma {:induction false} DebounceSpacing(url: string, commands: map<string, string>, debounce: int,
                                           timeout: int, last: int, calls: seq<Call>)
    requires debounce >= 0
    ensures var t := Run(url, commands, debounce, timeout, last, calls);
            forall i, j :: 0 <= i < j < |calls| && t.sent[i] && t.sent[j] ==> calls[j].now - calls[i].now >= debounce
    decreases |calls|
  {
    if calls != [] {
      var d := SendGesture(url, commands, debounce, timeout, last, calls[0].gesture, calls[0].now, calls[0].outcome);
      var t := Run(url, commands, debounce, timeout, last, calls);
      var rest := Run(url, commands, debounce, timeout, d.last, calls[1..]);
      DebounceSpacing(url, commands, debounce, timeout, d.last, calls[1..]);
      SendsAfterDebounce(url, commands, debounce, timeout, d.last, calls[1..]);
      forall i, j | 0 <= i < j < |calls| && t.sent[i] && t.sent[j]
        ensures calls[j].now - calls[i].now >= debounce
      {
        assert t.sent[j] == rest.sent[j - 1] && calls[j] == calls[1..][j - 1];
        if i > 0 {
          assert t.sent[i] == rest.sent[i - 1] && calls[i] == calls[1..][i - 1];
        }
      }
    }
  }

  /**
   * With a clock that never goes backwards and a starting timestamp no later
   * than the first call, the timestamp never decreases along the run.
   */
  lemma {:induction false} TimestampNeverDecreases(url: string, commands: map<string, string>, debounce: int,
                                                   timeout: int, last: int, calls: seq<Call>)
    requires Monotone(calls)
    requires calls != [] ==> last <= calls[0].now
    ensures var t := Run(url, commands, debounce, timeout, last, calls);
            (forall j :: 0 <= j < |calls| ==> last <= t.lasts[j] <= calls[j].now)
            && (forall j :: 0 < j < |calls| ==> t.lasts[j - 1] <= t.lasts[j])
    decreases |calls|
  {
    if calls != [] {
      var d := SendGesture(url, commands, debounce, timeout, last, calls[0].gesture, calls[0].now, calls[0].outcome);
      var t := Run(url, commands, debounce, timeout, last, calls);
      var rest := Run(url, commands, debounce, timeout, d.last, calls[1..]);
      assert forall j :: 0 <= j < |calls| - 1 ==> calls[1..][j] == calls[j + 1];
      assert d.last <= calls[0].now;
      TimestampNeverDecreases(url, commands, debounce, timeout, d.last, calls[1..]);
      assert forall j :: 0 < j < |calls| ==> t.lasts[j] == rest.lasts[j - 1];
    }
  }

  /**
   * Two answered calls with a mapped gesture: both are sent when they are a
   * debounce interval apart, only the first when the second comes sooner.
   */
  lemma TwoCalls(url: string, commands: map<string, string>, debounce: int, timeout: int,
                 last: int, gesture: string, t1: int, t2: int)
    requires gesture in commands && t1 - last >= debounce && t1 <= t2
    ensures var calls := [Call(gesture, t1, Status(200)), Call(gesture, t2, Status(200))];
            Run(url, commands, debounce, timeout, last, calls).sent
            == (if t2 - t1 >= debounce then [true, true] else [true, false])
  {
    var calls := [Call(gesture, t1, Status(200)), Call(gesture, t2, Status(200))];
    assert calls[1..] == [Call(gesture, t2, Status(200))];
    assert calls[1..][1..] == [];
  }

  class GestureController {
    /** `url or config.CONTROL_URL`. */
    const url: string
    /** `config.GESTURE_DEBOUNCE`, in ticks. */
    const debounce: int
    /** `config.GESTURE_COMMANDS`: gesture label to command string. */
    const commands: map<string, string>
    /** `config.HTTP_TIMEOUT`. */
    const httpTimeout: int
    /** The time of the last command answered with 200 (0 at start). */
    var lastCommandTime: int

    /** A missing or empty `url` falls back to the configured control URL (Python's `or`). */
    constructor (url: Option<string>, controlUrl: string, commands: map<string, string>, debounce: int, httpTimeout: int)
      ensures this.url == (if url.None? || url.value == "" then controlUrl else url.value)
      ensures this.commands == commands && this.debounce == debounce && this.httpTimeout == httpTimeout
      ensures lastCommandTime == 0
    {
      this.url := if url.Some? && url.value != "" then url.value else controlUrl;
      this.commands := commands;
      this.debounce := debounce;
      this.httpTimeout := httpTimeout;
      lastCommandTime := 0;
    }

    /**
     * `send_gesture_command(gesture)` at time `now`. Returns whether the
     * command was sent (answered with 200) and the POST that was issued, if any.
     */
    method SendGestureCommand(gesture: string, now: int, outcome: HttpOutcome) returns (sent: bool, request: Option<Post>)
      modifies this
      ensures Dispatch(sent, request, lastCommandTime)
              == SendGesture(url, commands, debounce, httpTimeout, old(lastCommandTime), gesture, now, outcome)
      // Unmapped gesture, or still inside the debounce interval: nothing sent, nothing changed.
      ensures gesture !in commands || now - old(lastCommandTime) < debounce ==>
                !sent && request.None? && lastCommandTime == old(lastCommandTime)
      // Otherwise exactly `{'command': commands[gesture]}` is posted as JSON.
      ensures gesture in commands && now - old(lastCommandTime) >= debounce ==>
                request == Some(Post(url, CommandPayload(commands[gesture]), JsonHeaders, httpTimeout))
      // Only a 200 answer counts, and only it moves the timestamp (to `now`).
      ensures sent <==> request.Some? && outcome == Status(200)
      ensures lastCommandTime == (if sent then now else old(lastCommandTime))
    {
      if gesture !in commands {
        return false, None;
      }
      var timeSinceLast := now - lastCommandTime;
      if timeSinceLast < debounce {
        return false, None;
      }
      var command := commands[gesture];
      var payload := CommandPayload(command);
      request := Some(Post(url, payload, JsonHeaders, httpTimeout));
      match outcome
      case Status(code) =>
        if code == 200 {
          lastCommandTime := now;
          sent := true;
        } else {
          sent := false;
        }
      case Timeout =>
        sent := false;
      case ConnectionError =>
        sent := false;
      case OtherError =>
        sent := false;
    }

    /**
     * `send_custom_command(command)`: posts `{'command': command}` with no
     * debounce and no effect on the timestamp; true exactly on a 200 answer.
     */
    method SendCustomCommand(command: string, outcome: HttpOutcome) returns (sent: bool, request: Post)
      ensures request == Post(url, CommandPayload(command), JsonHeaders, httpTimeout)
      ensures sent <==> outcome == Status(200)
    {
      request := Post(url, CommandPayload(command), JsonHeaders, httpTimeout);
      sent := outcome.Status? && outcome.code == 200;
    }

    /**
     * `test_connection()`: posts `{'command': 'test'}` with a 2-second
     * timeout; true whenever the POST answered, whatever the status.
     */
    method TestConnection(outcome: HttpOutcome) returns (reachable: bool, request: Post)
      ensures request == Post(url, CommandPayload("test"), JsonHeaders, TestTimeout)
      ensures reachable <==> outcome.Status?
    {
      request := Post(url, CommandPayload("test"), JsonHeaders, TestTimeout);
      reachable := outcome.Status?;
    }
  }
}
