/**
 * TrainManagerController: the adapter that holds one TCP connection to an ECoS command
 * station and turns typed commands into request lines and replies into values.
 *
 * The socket is modelled by whether it is set; its reader and writer by the line values
 * of module Framing. A connection attempt is a parameter (the network's answer). The
 * static `trainId` is a field (the controller is a singleton), and the error display is a
 * log of the messages handed to it.
 */
module TrainController {
  import opened Options
  import opened JavaLang
  import opened Framing
  import opened Replies
  import opened Commands

  /** The message shown whenever a reply cannot be read. */
  const ResponseError: string := "Can't read the ECoS response"

  /** The train id before any connection names one. */
  const InitialTrainId: int32 := 1000

  /** What the network answers to a connection attempt: the peer's lines, or IOException. */
  datatype ConnectOutcome = Accepted(script: seq<string>, end: StreamEnd) | Refused

  /** Never opened (reader and writer unset), open, or closed after being open. */
  datatype Phase = NeverOpened | Open | Closed

  class TrainManagerController {
    /** Whether `socket` is non-null. */
    var socket: bool
    /** plecClient. */
    var reader: Option<LineReader>
    /** predClient. */
    var writer: Option<LineWriter>
    var connected: bool
    /** The static train id every locomotive command addresses. */
    var trainId: int32
    /** The messages handed to the error display, oldest first. */
    var errors: seq<string>

    /**
     * The reader and writer are created together and closed together, and the socket is
     * set exactly while they are open.
     */
    ghost predicate Valid()
      reads this
    {
      (reader.None? <==> writer.None?) &&
      (reader.Some? ==> reader.value.closed == writer.value.closed) &&
      (socket <==> reader.Some? && !reader.value.closed)
    }

    ghost function State(): Phase
      reads this
      requires Valid()
    {
      if reader.None? then NeverOpened else if socket then Open else Closed
    }

    /**
     * After a request: exactly the request line went out, the reply was read as Exchange
     * reads it, and nothing but the reader and writer changed.
     */
    twostate predicate Exchanged(cmd: string)
      reads this
    {
      old(reader).Some? && old(writer).Some? &&
      reader == Some(Exchange(old(reader).value).1) &&
      writer == Some(WriteLine(old(writer).value, cmd)) &&
      socket == old(socket) && connected == old(connected) && trainId == old(trainId)
    }

    constructor ()
      ensures Valid() && State() == NeverOpened
      ensures !connected && trainId == InitialTrainId && errors == []
    {
      socket := false;
      reader := None;
      writer := None;
      connected := false;
      trainId := InitialTrainId;
      errors := [];
    }

    /**
     * openSocket: records the train id first; does nothing more when a socket is set;
     * otherwise connects, and on failure clears the socket and reports the failure
     * (`ok` false stands for the rethrown IOException).
     */
    method OpenSocket(id: int32, outcome: ConnectOutcome) returns (ok: bool)
      requires Valid()
      modifies this
      ensures Valid() && trainId == id
      ensures old(socket) ==> ok && socket && reader == old(reader) && writer == old(writer)
      ensures !old(socket) ==> (ok <==> outcome.Accepted?)
      ensures !old(socket) && outcome.Accepted? ==>
        State() == Open &&
        reader == Some(LineReader(outcome.script, outcome.end, false)) &&
        writer == Some(LineWriter([], false))
      ensures !old(socket) && outcome.Refused? ==>
        !socket && reader == old(reader) && writer == old(writer) && State() == old(State())
      ensures connected == old(connected) && errors == old(errors)
    {
      trainId := id;
      if socket {
        return true;
      }
      socket := true;
      match outcome
      case Refused =>
        socket := false;
        ok := false;
      case Accepted(script, end) =>
        reader := Some(LineReader(script, end, false));
        writer := Some(LineWriter([], false));
        ok := true;
    }

    method SetConnected(state: bool)
      modifies this
      ensures connected == state
      ensures socket == old(socket) && reader == old(reader) && writer == old(writer)
      ensures trainId == old(trainId) && errors == old(errors)
    {
      connected := state;
    }

    method IsConnected() returns (state: bool)
      ensures state == connected
    {
      state := connected;
    }

    /**
     * readLine: the next line, or None for null, which it also returns when reading throws
     * and when there is no reader at all.
     */
    method ReadLine() returns (line: Option<string>)
      requires Valid()
      modifies this
      ensures Valid()
      ensures old(reader).None? ==> line.None? && reader == old(reader)
      ensures old(reader).Some? ==>
        reader == Some(NextLine(old(reader).value).1) &&
        line == (match NextLine(old(reader).value).0
                 case Line(text) => Some(text)
                 case _ => None)
      ensures socket == old(socket) && writer == old(writer) && connected == old(connected)
      ensures trainId == old(trainId) && errors == old(errors)
    {
      if reader.None? {
        return None;
      }
      var (got, next) := NextLine(reader.value);
      reader := Some(next);
      line := if got.Line? then Some(got.text) else None;
    }

    /**
     * closeSocket: closes the reader, the writer and the socket in that order and clears
     * the socket. A reader that was never set, or a socket already cleared, makes it throw
     * a NullPointerException (`ok` false) after the steps before it.
     */
    method CloseSocket() returns (ok: bool)
      requires Valid()
      modifies this
      ensures Valid() && !socket
      ensures ok <==> old(State()) == Open
      ensures old(State()) == NeverOpened ==> State() == NeverOpened
      ensures old(State()) != NeverOpened ==>
        State() == Closed &&
        reader == Some(old(reader).value.(closed := true)) &&
        writer == Some(old(writer).value.(closed := true))
      ensures connected == old(connected) && trainId == old(trainId) && errors == old(errors)
    {
      if reader.None? {
        return false;
      }
      reader := Some(reader.value.(closed := true));
      writer := Some(writer.value.(closed := true));
      if !socket {
        return false;
      }
      socket := false;
      ok := true;
    }

    /**
     * sendMsg: writes the request line, then reads lines until a terminator, null or an
     * exception, dropping acknowledgements and collecting every other line with a newline;
     * returns the trimmed collection. A failed read ends the loop without an error.
     */
    method SendMsg(msg: string) returns (reply: string)
      requires Valid() && writer.Some?
      modifies this
      ensures Valid() && Exchanged(msg) && errors == old(errors)
      ensures reply == Exchange(old(reader).value).0
    {
      writer := Some(WriteLine(writer.value, msg));
      var quit := false;
      var sb := "";
      var r := reader.value;
      ghost var start := r;
      ghost var k := 0;
      ReadingStarts(start);
      while !quit
        invariant reader == Some(r) && writer == Some(WriteLine(old(writer).value, msg))
        invariant socket == old(socket) && connected == old(connected)
        invariant trainId == old(trainId) && errors == old(errors)
        invariant Reading(start, r, k, sb, quit)
        decreases |r.pending|
      {
        var (got, next) := NextLine(r);
        if !got.Line? {
          break;
        }
        var line := got.text;
        ReadingStep(start, r, k, sb, line);
        r := next;
        reader := Some(r);
        if IsAck(line) {
        } else if IsEnd(line) {
          quit := true;
        } else {
          sb := sb + line + "\n";
        }
        k := k + 1;
      }
      ReadingEnds(start, r, k, sb, quit);
      reply := Trim(sb);
    }

    /**
     * getEmergencyState: asks for the station status; true exactly when the bracketed
     * value upper-cases to "GO"; false with one error notification when there is none.
     */
    method GetEmergencyState() returns (state: bool)
      requires Valid() && writer.Some?
      modifies this
      ensures Valid() && Exchanged(Format(Command.GetStatus))
      ensures var reply := Exchange(old(reader).value).0;
        state == EmergencyOf(reply).GetOr(false) &&
        errors == old(errors) + (if EmergencyOf(reply).None? then [ResponseError] else [])
    {
      var reply := SendMsg(Format(Command.GetStatus));
      var value := EmergencyOf(reply);
      if value.None? {
        errors := errors + [ResponseError];
      }
      state := value.GetOr(false);
    }

    /** emergencyStop: `set(1, stop)` when `stop`, `set(1, go)` otherwise. */
    method EmergencyStop(stop: bool)
      requires Valid() && writer.Some?
      modifies this
      ensures Valid() && Exchanged(Format(Command.EmergencyStop(stop))) && errors == old(errors)
    {
      var _ := SendMsg(Format(Command.EmergencyStop(stop)));
    }

    method GetInfo()
      requires Valid() && writer.Some?
      modifies this
      ensures Valid() && Exchanged(Format(Command.GetInfo)) && errors == old(errors)
    {
      var _ := SendMsg(Format(Command.GetInfo));
    }

    /**
     * getSpeed: the bracketed int of the reply; 0 with one error notification when it is
     * missing or does not parse.
     */
    method GetSpeed() returns (speed: int32)
      requires Valid() && writer.Some?
      modifies this
      ensures Valid() && Exchanged(Format(Command.GetSpeed(old(trainId))))
      ensures var reply := Exchange(old(reader).value).0;
        speed == SpeedOf(reply).GetOr(0) &&
        errors == old(errors) + (if SpeedOf(reply).None? then [ResponseError] else [])
    {
      var reply := SendMsg(Format(Command.GetSpeed(trainId)));
      var value := SpeedOf(reply);
      if value.None? {
        errors := errors + [ResponseError];
      }
      speed := value.GetOr(0);
    }

    method SetSpeed(speed: int32)
      requires Valid() && writer.Some?
      modifies this
      ensures Valid() && Exchanged(Format(Command.SetSpeed(old(trainId), speed))) && errors == old(errors)
    {
      var _ := SendMsg(Format(Command.SetSpeed(trainId, speed)));
    }

    /**
     * getDir: true (forward) exactly when the bracketed int of the reply is 0; false with
     * one error notification when it is missing or does not parse.
     */
    method GetDir() returns (forward: bool)
      requires Valid() && writer.Some?
      modifies this
      ensures Valid() && Exchanged(Format(Command.GetDir(old(trainId))))
      ensures var reply := Exchange(old(reader).value).0;
        forward == DirOf(reply).GetOr(false) &&
        errors == old(errors) + (if DirOf(reply).None? then [ResponseError] else [])
    {
      var reply := SendMsg(Format(Command.GetDir(trainId)));
      var value := DirOf(reply);
      if value.None? {
        errors := errors + [ResponseError];
      }
      forward := value.GetOr(false);
    }

    method SetDir(x: int32)
      requires Valid() && writer.Some?
      modifies this
      ensures Valid() && Exchanged(Format(Command.SetDir(old(trainId), x))) && errors == old(errors)
    {
      var _ := SendMsg(Format(Command.SetDir(trainId, x)));
    }

    /** getLoco: sends the locomotive query and discards the reply. */
    method GetLoco()
      requires Valid() && writer.Some?
      modifies this
      ensures Valid() && Exchanged(Format(Command.QueryLocos)) && errors == old(errors)
    {
      var _ := SendMsg(Format(Command.QueryLocos));
    }

    method TakeControl()
      requires Valid() && writer.Some?
      modifies this
      ensures Valid() && Exchanged(Format(Command.TakeControl(old(trainId)))) && errors == old(errors)
    {
      var _ := SendMsg(Format(Command.TakeControl(trainId)));
    }

    method ReleaseControl()
      requires Valid() && writer.Some?
      modifies this
      ensures Valid() && Exchanged(Format(Command.ReleaseControl(old(trainId)))) && errors == old(errors)
    {
      var _ := SendMsg(Format(Command.ReleaseControl(trainId)));
    }

    method SetButton(i: int32, enabled: bool)
      requires Valid() && writer.Some?
      modifies this
      ensures Valid() && Exchanged(Format(Command.SetButton(old(trainId), i, enabled))) && errors == old(errors)
    {
      var _ := SendMsg(Format(Command.SetButton(trainId, i, enabled)));
    }

    /**
     * getButton: true exactly when the int between the last space and the last ']' of the
     * reply is 1; false with one error notification when it is missing or does not parse.
     */
    method GetButton(i: int32) returns (enabled: bool)
      requires Valid() && writer.Some?
      modifies this
      ensures Valid() && Exchanged(Format(Command.GetButton(old(trainId), i)))
      ensures var reply := Exchange(old(reader).value).0;
        enabled == ButtonOf(reply).GetOr(false) &&
        errors == old(errors) + (if ButtonOf(reply).None? then [ResponseError] else [])
    {
      var reply := SendMsg(Format(Command.GetButton(trainId, i)));
      var value := ButtonOf(reply);
      if value.None? {
        errors := errors + [ResponseError];
      }
      enabled := value.GetOr(false);
    }
  }

  /**
   * Opening twice dials once; closing clears the socket, so the next open dials again,
   * with the train id it is given.
   */
  method ReopenAfterClose(first: seq<string>, second: seq<string>, ignored: ConnectOutcome)
    returns (c: TrainManagerController)
    ensures c.Valid() && c.State() == Open && c.trainId == 7
    ensures c.reader == Some(LineReader(second, EndOfStream, false))
    ensures c.writer == Some(LineWriter([], false))
  {
    c := new TrainManagerController();
    var ok := c.OpenSocket(5, Accepted(first, EndOfStream));
    assert ok && c.reader == Some(LineReader(first, EndOfStream, false));
    ok := c.OpenSocket(6, ignored);
    assert ok && c.reader == Some(LineReader(first, EndOfStream, false)) && c.trainId == 6;
    ok := c.CloseSocket();
    assert ok && !c.socket;
    ok := c.CloseSocket();
    assert !ok;
    ok := c.OpenSocket(7, Accepted(second, EndOfStream));
  }
}
