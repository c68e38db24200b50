/**
 * How the controller reads a typed value out of an ECoS reply such as `1000 speed[87]`:
 * the text between the last opening delimiter (a '[' or, for function buttons, a space)
 * and the last ']', parsed as an int or compared with "GO". Every failure, whether the
 * substring cannot be taken or the text does not parse, is a None here; the controller
 * turns it into its default value and one error notification.
 */
module Replies {
  import opened Options
  import opened JavaLang

  /**
   * `reply` is `before + value + "]" + after` where `value` starts right after the last
   * `open` (or at the start when there is none) and `after` follows the last ']'.
   */
  ghost predicate Frames(reply: string, open: char, before: string, value: string, after: string) {
    reply == before + value + "]" + after &&
    (before == [] || before[|before| - 1] == open) &&
    open !in value && open !in after && ']' !in after
  }

  /**
   * `reply.substring(reply.lastIndexOf(open) + 1, reply.lastIndexOf(']'))`. Java throws
   * exactly when the last ']' is missing or does not come after the last `open`; when
   * there is no `open` the text starts at the beginning of the reply.
   */
  function Bracketed(reply: string, open: char): (r: Option<string>)
    ensures r.Some? <==> LastIndexOf(reply, open) < LastIndexOf(reply, ']')
    ensures r.Some? ==>
      Frames(reply, open, reply[..LastIndexOf(reply, open) + 1], r.value, reply[LastIndexOf(reply, ']') + 1..])
  {
    Substring(reply, LastIndexOf(reply, open) + 1, LastIndexOf(reply, ']'))
  }

  /** Every way of framing a reply gives the text Bracketed extracts. */
  lemma BracketedFrames(reply: string, open: char, before: string, value: string, after: string)
    requires open != ']'
    requires Frames(reply, open, before, value, after)
    ensures Bracketed(reply, open) == Some(value)
  {
    var close := |before| + |value|;
    assert reply[close] == ']';
    forall k | close < k < |reply|
      ensures reply[k] != ']' && reply[k] != open
    {
      assert reply[k] == after[k - close - 1];
    }
    LastIndexOfAt(reply, ']', close);
    forall k | |before| <= k < close
      ensures reply[k] != open
    {
      assert reply[k] == value[k - |before|];
    }
    if before != [] {
      assert reply[|before| - 1] == before[|before| - 1];
    }
    LastIndexOfAt(reply, open, |before| - 1);
    assert reply[|before|..close] == value;
  }

  /** What `getSpeed` reads from its reply; None where it returns 0 and reports an error. */
  function SpeedOf(reply: string): (r: Option<int32>)
    ensures var i, j := LastIndexOf(reply, '[') + 1, LastIndexOf(reply, ']');
      r == if i <= j then ParseInt(reply[i..j]) else None
  {
    match Bracketed(reply, '[')
    case None => None
    case Some(text) => ParseInt(text)
  }

  /** What `getDir` reads from its reply: whether the value is 0 (forward). */
  function DirOf(reply: string): (r: Option<bool>)
    ensures r.Some? <==> SpeedOf(reply).Some?
    ensures r.Some? ==> r.value == (SpeedOf(reply).value == 0)
  {
    match Bracketed(reply, '[')
    case None => None
    case Some(text) =>
      match ParseInt(text)
      case None => None
      case Some(v) => Some(v == 0)
  }

  /** What `getButton` reads from its reply: whether the value after the last space is 1. */
  function ButtonOf(reply: string): (r: Option<bool>)
    ensures var i, j := LastIndexOf(reply, ' ') + 1, LastIndexOf(reply, ']');
      (r.Some? <==> i <= j && ParseInt(reply[i..j]).Some?) &&
      (r.Some? ==> r.value == (ParseInt(reply[i..j]).value == 1))
  {
    match Bracketed(reply, ' ')
    case None => None
    case Some(text) =>
      match ParseInt(text)
      case None => None
      case Some(v) => Some(v == 1)
  }

  /** What `getEmergencyState` reads from its reply: whether the upper-cased value is "GO". */
  function EmergencyOf(reply: string): (r: Option<bool>)
    ensures var i, j := LastIndexOf(reply, '[') + 1, LastIndexOf(reply, ']');
      (r.Some? <==> i <= j) &&
      (r.Some? ==> r.value == (reply[i..j] in {"GO", "Go", "gO", "go"}))
  {
    match Bracketed(reply, '[')
    case None => None
    case Some(text) =>
      UpperIsGo(text);
      Some(ToUpperCase(text) == "GO")
  }

  /** A speed written in brackets at the end of a reply is read back exactly. */
  lemma SpeedReply(before: string, n: int32, after: string)
    requires '[' !in after && ']' !in after
    ensures SpeedOf(before + "[" + IntToString(n) + "]" + after) == Some(n)
  {
    var text := IntToString(n);
    assert '[' !in text;
    BracketedFrames(before + "[" + text + "]" + after, '[', before + "[", text, after);
    ParseIntRoundTrip(n);
  }

  /** A direction value written in brackets reads as forward exactly when it is 0. */
  lemma DirReply(before: string, x: int32, after: string)
    requires '[' !in after && ']' !in after
    ensures DirOf(before + "[" + IntToString(x) + "]" + after) == Some(x == 0)
  {
    var text := IntToString(x);
    assert '[' !in text;
    BracketedFrames(before + "[" + text + "]" + after, '[', before + "[", text, after);
    ParseIntRoundTrip(x);
  }

  /** A button value written after a space and before the last ']' reads as on exactly when it is 1. */
  lemma ButtonReply(before: string, v: int32, after: string)
    requires ' ' !in after && ']' !in after
    ensures ButtonOf(before + " " + IntToString(v) + "]" + after) == Some(v == 1)
  {
    var text := IntToString(v);
    assert ' ' !in text;
    BracketedFrames(before + " " + text + "]" + after, ' ', before + " ", text, after);
    ParseIntRoundTrip(v);
  }

  /** A status in brackets reads as true exactly when it is "GO" in any letter case. */
  lemma EmergencyReply(before: string, status: string, after: string)
    requires '[' !in status && '[' !in after && ']' !in after
    ensures EmergencyOf(before + "[" + status + "]" + after) == Some(status in {"GO", "Go", "gO", "go"})
  {
    BracketedFrames(before + "[" + status + "]" + after, '[', before + "[", status, after);
    UpperIsGo(status);
  }

  /** A reply without any ']' yields no value for any of the four readers. */
  lemma NoClosingBracket(reply: string)
    requires ']' !in reply
    ensures SpeedOf(reply).None? && DirOf(reply).None? && ButtonOf(reply).None? && EmergencyOf(reply).None?
  {
    LastIndexOfAt(reply, ']', -1);
  }

  /** A value whose '[' is never closed (the last '[' follows the last ']') yields no value. */
  lemma UnclosedBracket(before: string, after: string)
    requires ']' !in after
    ensures SpeedOf(before + "[" + after).None?
    ensures DirOf(before + "[" + after).None?
    ensures EmergencyOf(before + "[" + after).None?
  {
    var reply := before + "[" + after;
    var open := LastIndexOf(reply, '[');
    assert reply[|before|] == '[';
    forall k | |before| < k < |reply|
      ensures reply[k] != ']'
    {
      assert reply[k] == after[k - |before| - 1];
    }
    assert LastIndexOf(reply, ']') < |before| <= open;
  }

  /** Replies as the console writes them, and how a malformed or bare value reads. */
  lemma SpeedExamples()
    ensures SpeedOf("<1 speed[87]>") == Some(87)
    ensures SpeedOf("87]") == Some(87)
  {
    assert ParseInt("87") == Some(87) by {
      assert "87"[..1] == "8" && "8"[..0] == [];
      assert DigitsValue("87") == 87;
    }
    BracketedFrames("<1 speed[87]>", '[', "<1 speed[", "87", ">");
    BracketedFrames("87]", '[', "", "87", "");
  }

  /**
   * A bracketed value that does not start with a digit or a sign, such as `bogus` or ` 87`
   * (parseInt does not trim), reads as no speed.
   */
  lemma NonNumericSpeed(before: string, text: string, after: string)
    requires text != [] && !IsDigit(text[0]) && text[0] != '-' && text[0] != '+'
    requires '[' !in text && '[' !in after && ']' !in after
    ensures SpeedOf(before + "[" + text + "]" + after) == None
  {
    BracketedFrames(before + "[" + text + "]" + after, '[', before + "[", text, after);
    assert Unsigned(text) == text;
  }
}
