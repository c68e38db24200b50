/**
 * The request/reply framing of the ECoS text protocol as the controller's `sendMsg`
 * performs it: one request line out, then reply lines in until a line starting with
 * "<END", the end of the stream or a failed read. Lines starting with "<REPLY" are
 * acknowledgements and are dropped; every other line read is payload.
 */
module Framing {
  import opened Options
  import opened JavaLang

  /** What a read yields once every line the peer sent has been read. */
  datatype StreamEnd = EndOfStream | ReadFailure

  /**
   * The reading side of the socket (the BufferedReader): the lines the peer has sent
   * that have not been read yet, how the stream goes on after them, and whether
   * `close()` has been called on it.
   */
  datatype LineReader = LineReader(pending: seq<string>, end: StreamEnd, closed: bool)

  /** The writing side of the socket (the auto-flushing PrintWriter): every line written, in order. */
  datatype LineWriter = LineWriter(sent: seq<string>, closed: bool)

  /** One call of `readLine()`: a line, `null`, or an IOException. */
  datatype ReadOutcome = Line(text: string) | Null | Threw

  /** `readLine()` on the reader, and the reader afterwards. A closed reader throws. */
  function NextLine(r: LineReader): (res: (ReadOutcome, LineReader))
    ensures res.1.end == r.end && res.1.closed == r.closed
    ensures res.0.Line? <==> !r.closed && r.pending != []
    ensures res.0.Line? ==> res.0.text == r.pending[0] && res.1.pending == r.pending[1..]
    ensures !res.0.Line? ==> res.1 == r
    ensures res.0.Null? <==> !r.closed && r.pending == [] && r.end == EndOfStream
  {
    if r.closed then (Threw, r)
    else if r.pending != [] then (Line(r.pending[0]), r.(pending := r.pending[1..]))
    else if r.end == EndOfStream then (Null, r)
    else (Threw, r)
  }

  /** `println(line)` on the writer; a closed PrintWriter drops the line without throwing. */
  function WriteLine(w: LineWriter, line: string): (w': LineWriter)
    ensures w'.closed == w.closed && w.sent <= w'.sent
    ensures |w'.sent| == |w.sent| + (if w.closed then 0 else 1)
    ensures !w.closed ==> w'.sent[|w.sent|] == line
  {
    if w.closed then w else w.(sent := w.sent + [line])
  }

  /** An acknowledgement line, which is never part of the payload. */
  predicate IsAck(line: string) {
    StartsWith(line, "<REPLY")
  }

  /** A terminator line, which ends the reply. */
  predicate IsEnd(line: string) {
    StartsWith(line, "<END")
  }

  lemma AckIsNotEnd(line: string)
    requires IsAck(line)
    ensures !IsEnd(line)
  {
    assert line[1] == line[..6][1] == 'R';
  }

  /**
   * How many lines `sendMsg` reads from `lines` when the stream has no more after them:
   * up to and including the first terminator line, or all of them.
   */
  function ReadCount(lines: seq<string>): (n: nat)
    ensures n <= |lines|
    ensures forall k :: 0 <= k < n - 1 ==> !IsEnd(lines[k])
    ensures n < |lines| ==> 0 < n && IsEnd(lines[n - 1])
  {
    if lines == [] then 0
    else if IsAck(lines[0]) then AckIsNotEnd(lines[0]); 1 + ReadCount(lines[1..])
    else if IsEnd(lines[0]) then 1
    else 1 + ReadCount(lines[1..])
  }

  /** What the StringBuilder of `sendMsg` holds after reading `lines` (before `trim()`). */
  function Accumulate(lines: seq<string>): string {
    if lines == [] then ""
    else if IsAck(lines[0]) then Accumulate(lines[1..])
    else if IsEnd(lines[0]) then ""
    else lines[0] + "\n" + Accumulate(lines[1..])
  }

  /** The collected text is empty or ends with the newline of its last line. */
  lemma {:induction false} AccumulateEndsLine(lines: seq<string>)
    ensures var text := Accumulate(lines); text == [] || text[|text| - 1] == '\n'
  {
    if lines != [] && !IsEnd(lines[0]) {
      AccumulateEndsLine(lines[1..]);
      var rest := Accumulate(lines[1..]);
      if IsAck(lines[0]) {
        assert Accumulate(lines) == rest;
      } else {
        var text := lines[0] + "\n" + rest;
        assert Accumulate(lines) == text;
        assert text[|text| - 1] == if rest == [] then '\n' else rest[|rest| - 1];
      }
    } else if lines != [] && IsAck(lines[0]) {
      AckIsNotEnd(lines[0]);
    }
  }

  /** The payload lines among `lines`: neither acknowledgements nor terminators. */
  function PayloadLines(lines: seq<string>): seq<string> {
    if lines == [] then []
    else (if IsAck(lines[0]) || IsEnd(lines[0]) then [] else [lines[0]]) + PayloadLines(lines[1..])
  }

  /** Each line followed by a newline, in order. */
  function JoinLines(lines: seq<string>): string {
    if lines == [] then "" else lines[0] + "\n" + JoinLines(lines[1..])
  }

  lemma {:induction false} PayloadLinesAppend(a: seq<string>, b: seq<string>)
    ensures PayloadLines(a + b) == PayloadLines(a) + PayloadLines(b)
  {
    if a == [] {
      assert a + b == b;
    } else {
      assert (a + b)[1..] == a[1..] + b;
      PayloadLinesAppend(a[1..], b);
    }
  }

  /**
   * The accumulated text is the in-order concatenation of the payload lines among those
   * read, each followed by a newline.
   */
  lemma {:induction false} AccumulateConsumed(lines: seq<string>)
    ensures Accumulate(lines) == JoinLines(PayloadLines(lines[..ReadCount(lines)]))
  {
    if lines != [] {
      var n := ReadCount(lines);
      if !IsAck(lines[0]) && IsEnd(lines[0]) {
        assert lines[..n] == [lines[0]];
      } else {
        var tail := lines[1..][..ReadCount(lines[1..])];
        assert lines[..n] == [lines[0]] + tail;
        AccumulateConsumed(lines[1..]);
        if IsAck(lines[0]) {
          assert PayloadLines([lines[0]] + tail) == PayloadLines(tail) by {
            assert ([lines[0]] + tail)[1..] == tail;
          }
        } else {
          assert PayloadLines([lines[0]] + tail) == [lines[0]] + PayloadLines(tail) by {
            assert ([lines[0]] + tail)[1..] == tail;
          }
          assert ([lines[0]] + PayloadLines(tail))[1..] == PayloadLines(tail);
        }
      }
    }
  }

  /**
   * The reference for `sendMsg` once its request is written: the reply it returns and
   * the reader it leaves behind. A closed reader throws at the first read, so the reply
   * is empty; otherwise the reply is the trimmed accumulation and exactly the lines read
   * are gone from the reader.
   */
  function Exchange(r: LineReader): (string, LineReader) {
    if r.closed then ("", r)
    else
      var n := ReadCount(r.pending);
      (Trim(Accumulate(r.pending)), r.(pending := r.pending[n..]))
  }

  /**
   * What any exchange does to the reader: it only consumes lines from the front, and
   * leaves lines unread only when the last line it consumed is a terminator. The reply
   * neither starts nor ends with a blank, and a closed reader gives the empty reply.
   */
  lemma ExchangeConsumesPrefix(r: LineReader)
    ensures var (reply, after) := Exchange(r);
      after.end == r.end && after.closed == r.closed &&
      |after.pending| <= |r.pending| && after.pending == r.pending[|r.pending| - |after.pending|..] &&
      (!r.closed && after.pending != [] ==> IsEnd(r.pending[|r.pending| - |after.pending| - 1])) &&
      (reply == [] || (!IsBlank(reply[0]) && !IsBlank(reply[|reply| - 1]))) &&
      (r.closed ==> reply == "" && after == r)
  {
    if !r.closed {
      var n := ReadCount(r.pending);
      assert |r.pending| - |r.pending[n..]| == n;
    }
  }

  /**
   * Reading stops at the first terminator line: the reply is made of the payload lines
   * before it, and every line after it stays unread.
   */
  lemma StopsAtFirstEnd(r: LineReader, k: nat)
    requires !r.closed && k < |r.pending| && IsEnd(r.pending[k])
    requires forall j :: 0 <= j < k ==> !IsEnd(r.pending[j])
    ensures Exchange(r).1 == r.(pending := r.pending[k + 1..])
    ensures Exchange(r).0 == Trim(JoinLines(PayloadLines(r.pending[..k])))
  {
    var n := ReadCount(r.pending);
    assert n == k + 1;
    AccumulateConsumed(r.pending);
    assert r.pending[..n] == r.pending[..k] + [r.pending[k]];
    PayloadLinesAppend(r.pending[..k], [r.pending[k]]);
    assert PayloadLines([r.pending[k]]) == [];
    assert PayloadLines(r.pending[..k]) + [] == PayloadLines(r.pending[..k]);
  }

  /**
   * Without a terminator line every pending line is read, and the reply is what those
   * lines carried, whether the stream then ends or a read fails: the failure is not passed on.
   */
  lemma ReadsAllWithoutEnd(r: LineReader)
    requires !r.closed
    requires forall j :: 0 <= j < |r.pending| ==> !IsEnd(r.pending[j])
    ensures Exchange(r).1 == r.(pending := [])
    ensures Exchange(r).0 == Trim(JoinLines(PayloadLines(r.pending)))
    ensures Exchange(r.(end := ReadFailure)) == (Exchange(r).0, r.(pending := [], end := ReadFailure))
  {
    AccumulateConsumed(r.pending);
    assert r.pending[..|r.pending|] == r.pending;
  }

  /** What reading the first of `lines` contributes: a terminator ends the reply, any other line is one more read. */
  lemma ReadStep(lines: seq<string>)
    requires lines != []
    ensures IsEnd(lines[0]) ==> ReadCount(lines) == 1 && Accumulate(lines) == ""
    ensures !IsEnd(lines[0]) ==>
      ReadCount(lines) == 1 + ReadCount(lines[1..]) &&
      Accumulate(lines) == (if IsAck(lines[0]) then "" else lines[0] + "\n") + Accumulate(lines[1..])
  {
    if IsAck(lines[0]) {
      AckIsNotEnd(lines[0]);
    }
  }

  /**
   * The state of the read loop of `sendMsg` after `k` lines of `start` have been read:
   * `r` is the reader, `sb` the text collected and `quit` whether a terminator was seen.
   */
  ghost predicate Reading(start: LineReader, r: LineReader, k: nat, sb: string, quit: bool) {
    r.end == start.end && r.closed == start.closed &&
    k <= |start.pending| && r.pending == start.pending[k..] &&
    (start.closed ==> k == 0 && sb == "") &&
    (!quit ==>
      k + ReadCount(r.pending) == ReadCount(start.pending) &&
      sb + Accumulate(r.pending) == Accumulate(start.pending)) &&
    (quit ==> k == ReadCount(start.pending) && sb == Accumulate(start.pending))
  }

  lemma ReadingStarts(start: LineReader)
    ensures Reading(start, start, 0, "", false)
  {
    assert start.pending[0..] == start.pending;
  }

  /** One line read: an acknowledgement is dropped, a terminator stops, anything else is collected. */
  lemma ReadingStep(start: LineReader, r: LineReader, k: nat, sb: string, line: string)
    requires Reading(start, r, k, sb, false) && NextLine(r).0 == Line(line)
    ensures Reading(start, NextLine(r).1, k + 1,
                    if IsAck(line) || IsEnd(line) then sb else sb + line + "\n", IsEnd(line))
  {
    var rest := r.pending[1..];
    assert r.pending[0] == line;
    assert rest == start.pending[k + 1..];
    ReadStep(r.pending);
    if IsEnd(line) {
      assert sb + "" == sb;
    } else if !IsAck(line) {
      assert sb + line + "\n" + Accumulate(rest) == sb + (line + "\n" + Accumulate(rest));
    }
  }

  /**
   * The loop ends on a terminator, on null or on an exception; in each case the trimmed
   * text collected and the reader are those of Exchange.
   */
  lemma ReadingEnds(start: LineReader, r: LineReader, k: nat, sb: string, quit: bool)
    requires Reading(start, r, k, sb, quit) && (quit || !NextLine(r).0.Line?)
    ensures Exchange(start) == (Trim(sb), r)
  {
    if !start.closed && !quit {
      assert r.pending == [] && sb + "" == sb;
    }
  }

  /** Reading a line other than a terminator, and what it adds to the reply. */
  lemma ReadOne(line: string, rest: seq<string>)
    requires !IsEnd(line)
    ensures ReadCount([line] + rest) == 1 + ReadCount(rest)
    ensures Accumulate([line] + rest) == (if IsAck(line) then "" else line + "\n") + Accumulate(rest)
  {
    assert ([line] + rest)[1..] == rest;
  }

  lemma TrimTwoLines(first: string, second: string)
    requires first != [] && !IsBlank(first[0])
    requires second != [] && !IsBlank(second[|second| - 1])
    ensures Trim(first + "\n" + (second + "\n")) == first + "\n" + second
  {
    var nl := "\n";
    var m := first + nl + second;
    assert m[0] == first[0];
    assert m[|m| - 1] == second[|second| - 1];
    assert AllBlank(nl) && AllBlank([]);
    var padded := [] + m + nl;
    assert padded == first + "\n" + (second + "\n");
    TrimPadded([], m, nl);
  }

  /**
   * An acknowledgement, two payload lines and a terminator yield exactly the two payload
   * lines joined by a newline; what follows the terminator is left for the next request.
   */
  lemma TwoLineReply(ack: string, first: string, second: string, fin: string, later: seq<string>, end: StreamEnd)
    requires IsAck(ack) && IsEnd(fin)
    requires !IsAck(first) && !IsEnd(first) && !IsAck(second) && !IsEnd(second)
    requires first != [] && !IsBlank(first[0])
    requires second != [] && !IsBlank(second[|second| - 1])
    ensures Exchange(LineReader([ack, first, second, fin] + later, end, false))
         == (first + "\n" + second, LineReader(later, end, false))
  {
    AckIsNotEnd(ack);
    var rest3 := [fin] + later;
    var rest2 := [second] + rest3;
    var rest1 := [first] + rest2;
    var lines := [ack] + rest1;
    assert lines == [ack, first, second, fin] + later;
    assert rest3[1..] == later;
    ReadOne(second, rest3);
    ReadOne(first, rest2);
    ReadOne(ack, rest1);
    assert ReadCount(lines) == 4;
    assert Accumulate(lines) == first + "\n" + (second + "\n");
    TrimTwoLines(first, second);
    assert lines[4..] == later;
  }
}
