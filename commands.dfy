/**
 * The request lines the controller sends. Each is a fixed ECoS template: the verb, then
 * in parentheses the object id and the arguments. Commands about the command station
 * itself address object 1; commands about a locomotive address the current train id.
 */
module Commands {
  import opened Options
  import opened JavaLang
  import opened Replies

  /** The requests the controller sends; `id` is the train id current when the request is made. */
  datatype Command =
    | GetStatus
    | EmergencyStop(stop: bool)
    | GetInfo
    | GetSpeed(id: int32)
    | SetSpeed(id: int32, speed: int32)
    | GetDir(id: int32)
    | SetDir(id: int32, x: int32)
    | QueryLocos
    | TakeControl(id: int32)
    | ReleaseControl(id: int32)
    | SetButton(id: int32, i: int32, enabled: bool)
    | GetButton(id: int32, i: int32)

  /** `verb(target` followed by the rest of the argument list, as the controller concatenates it. */
  function Request(verb: string, target: int32, args: string): string {
    verb + "(" + IntToString(target) + args
  }

  /** The request line the controller writes for a command. */
  function Format(c: Command): string {
    match c
    case GetStatus => "get(1, status)"
    case EmergencyStop(stop) => if stop then "set(1, stop)" else "set(1, go)"
    case GetInfo => "get(1, info)"
    case GetSpeed(id) => Request("get", id, ", speed)")
    case SetSpeed(id, speed) => Request("set", id, ", speed[" + IntToString(speed) + "])")
    case GetDir(id) => Request("get", id, ", dir)")
    case SetDir(id, x) => Request("set", id, ", dir[" + IntToString(x) + "])")
    case QueryLocos => "queryObjects(10)"
    case TakeControl(id) => Request("request", id, ", control, force)")
    case ReleaseControl(id) => Request("release", id, ", control)")
    case SetButton(id, i, enabled) =>
      var value: int32 := if enabled then 1 else 0;
      Request("set", id, ", func[" + IntToString(i) + ", " + IntToString(value) + "])")
    case GetButton(id, i) => Request("get", id, ", func[" + IntToString(i) + "])")
  }

  /** A request built from one-line pieces is one line, and it ends as its arguments end. */
  lemma RequestLine(verb: string, target: int32, args: string)
    requires '\n' !in verb && '\n' !in args && args != []
    ensures var r := Request(verb, target, args);
      '\n' !in r && r[|r| - 1] == args[|args| - 1]
  {
    var text := IntToString(target);
    assert '\n' !in text;
  }

  /** The requests that carry a numeric argument are single lines ending in ')'. */
  lemma ArgumentLine(c: Command)
    requires c.SetSpeed? || c.SetDir? || c.SetButton? || c.GetButton?
    ensures var r := Format(c); '\n' !in r && r != [] && r[|r| - 1] == ')'
  {
    match c
    case SetSpeed(id, speed) =>
      var n := IntToString(speed);
      assert '\n' !in n;
      RequestLine("set", id, ", speed[" + n + "])");
    case SetDir(id, x) =>
      var n := IntToString(x);
      assert '\n' !in n;
      RequestLine("set", id, ", dir[" + n + "])");
    case SetButton(id, i, enabled) =>
      var value: int32 := if enabled then 1 else 0;
      var n, v := IntToString(i), IntToString(value);
      assert '\n' !in n && '\n' !in v;
      RequestLine("set", id, ", func[" + n + ", " + v + "])");
    case GetButton(id, i) =>
      var n := IntToString(i);
      assert '\n' !in n;
      RequestLine("get", id, ", func[" + n + "])");
  }

  /**
   * Every request is a single line ending in ')', so `println` sends exactly one
   * line and the console sees the whole command on it.
   */
  lemma SingleLine(c: Command)
    ensures var r := Format(c); '\n' !in r && r != [] && r[|r| - 1] == ')'
  {
    match c
    case SetSpeed(_, _) => ArgumentLine(c);
    case SetDir(_, _) => ArgumentLine(c);
    case SetButton(_, _, _) => ArgumentLine(c);
    case GetButton(_, _) => ArgumentLine(c);
    case GetSpeed(id) => RequestLine("get", id, ", speed)");
    case GetDir(id) => RequestLine("get", id, ", dir)");
    case TakeControl(id) => RequestLine("request", id, ", control, force)");
    case ReleaseControl(id) => RequestLine("release", id, ", control)");
    case _ =>
  }

  /**
   * The object a command is about: object 1 (the command station) for the status,
   * emergency and info requests, the train id for locomotive requests, and none for the
   * locomotive query, which names no object before a comma.
   */
  function Target(c: Command): Option<int32> {
    match c
    case GetStatus | EmergencyStop(_) | GetInfo => Some(1)
    case QueryLocos => None
    case _ => Some(c.id)
  }

  /**
   * The object a request addresses, as the console reads it: the int between the first
   * '(' and the first ','.
   */
  function TargetOf(cmd: string): Option<int32> {
    match Substring(cmd, IndexOf(cmd, '(') + 1, IndexOf(cmd, ','))
    case None => None
    case Some(text) => ParseInt(text)
  }

  /** A request `verb(id, ...)` addresses `id`. */
  lemma TemplateTarget(verb: string, id: int32, args: string)
    requires '(' !in verb && ',' !in verb
    requires args != [] && args[0] == ','
    ensures TargetOf(Request(verb, id, args)) == Some(id)
  {
    var text := IntToString(id);
    var cmd := verb + "(" + text + args;
    assert cmd[|verb|] == '(';
    forall k | 0 <= k < |verb| ensures cmd[k] != '(' && cmd[k] != ',' {
      assert cmd[k] == verb[k];
    }
    IndexOfAt(cmd, '(', |verb|);
    var comma := |verb| + 1 + |text|;
    assert cmd[comma] == args[0];
    forall k | |verb| < k < comma ensures cmd[k] != ',' {
      assert cmd[k] == text[k - |verb| - 1];
    }
    IndexOfAt(cmd, ',', comma);
    assert cmd[|verb| + 1..comma] == text;
    ParseIntRoundTrip(id);
  }

  /** The command-station requests address object 1. */
  lemma StationTarget(c: Command)
    requires c.GetStatus? || c.EmergencyStop? || c.GetInfo?
    ensures TargetOf(Format(c)) == Some(1)
  {
    var one: int32 := 1;
    assert IntToString(one) == "1" by {
      assert NatToDigits(1) == [DigitChar(1)];
    }
    match c
    case GetStatus =>
      assert Format(c) == Request("get", one, ", status)");
      TemplateTarget("get", one, ", status)");
    case EmergencyStop(stop) =>
      if stop {
        assert Format(c) == Request("set", one, ", stop)");
        TemplateTarget("set", one, ", stop)");
      } else {
        assert Format(c) == Request("set", one, ", go)");
        TemplateTarget("set", one, ", go)");
      }
    case GetInfo =>
      assert Format(c) == Request("get", one, ", info)");
      TemplateTarget("get", one, ", info)");
  }

  /** Every request addresses the object its command is about. */
  lemma FormatTarget(c: Command)
    ensures TargetOf(Format(c)) == Target(c)
  {
    match c
    case GetStatus => StationTarget(c);
    case EmergencyStop(_) => StationTarget(c);
    case GetInfo => StationTarget(c);
    case QueryLocos =>
      LastIndexOfAt(Format(c), ',', -1);
      assert ',' !in Format(c);
      assert IndexOf(Format(c), ',') == -1;
    case GetSpeed(id) => TemplateTarget("get", id, ", speed)");
    case SetSpeed(id, speed) => TemplateTarget("set", id, ", speed[" + IntToString(speed) + "])");
    case GetDir(id) => TemplateTarget("get", id, ", dir)");
    case SetDir(id, x) => TemplateTarget("set", id, ", dir[" + IntToString(x) + "])");
    case TakeControl(id) => TemplateTarget("request", id, ", control, force)");
    case ReleaseControl(id) => TemplateTarget("release", id, ", control)");
    case SetButton(id, i, enabled) =>
      var value: int32 := if enabled then 1 else 0;
      TemplateTarget("set", id, ", func[" + IntToString(i) + ", " + IntToString(value) + "])");
    case GetButton(id, i) => TemplateTarget("get", id, ", func[" + IntToString(i) + "])");
  }

  /** A console that echoes `set(id, speed[n])` is read by getSpeed as speed n. */
  lemma SpeedEcho(id: int32, speed: int32)
    ensures SpeedOf(Format(SetSpeed(id, speed))) == Some(speed)
  {
    var before := "set(" + IntToString(id) + ", speed";
    assert Format(SetSpeed(id, speed)) == before + "[" + IntToString(speed) + "]" + ")";
    SpeedReply(before, speed, ")");
  }

  /** A console that echoes `set(id, dir[x])` is read by getDir as forward exactly when x is 0. */
  lemma DirEcho(id: int32, x: int32)
    ensures DirOf(Format(SetDir(id, x))) == Some(x == 0)
  {
    var before := "set(" + IntToString(id) + ", dir";
    assert Format(SetDir(id, x)) == before + "[" + IntToString(x) + "]" + ")";
    DirReply(before, x, ")");
  }

  /** The button request regrouped around the last space before its value. */
  lemma SetButtonLine(id: int32, i: int32, enabled: bool, value: int32)
    requires value == if enabled then 1 else 0
    ensures Format(SetButton(id, i, enabled))
         == ("set(" + IntToString(id) + ", func[" + IntToString(i) + ",") + " " + IntToString(value) + "]" + ")"
  {
    var t, n, v := IntToString(id), IntToString(i), IntToString(value);
    assert Format(SetButton(id, i, enabled)) == "set" + "(" + t + (", func[" + n + ", " + v + "])");
    assert ", " == "," + " " && "])" == "]" + ")" && "set(" == "set" + "(";
  }

  /** A console that echoes `set(id, func[i, v])` is read by getButton as the state that was set. */
  lemma ButtonEcho(id: int32, i: int32, enabled: bool)
    ensures ButtonOf(Format(SetButton(id, i, enabled))) == Some(enabled)
  {
    var value: int32 := if enabled then 1 else 0;
    SetButtonLine(id, i, enabled, value);
    ButtonReply("set(" + IntToString(id) + ", func[" + IntToString(i) + ",", value, ")");
  }
}
