/** `net_input` of coco/utils.py (lines 299-349): reads a line from a remote
    terminal one chunk at a time, echoing (or masking) what is typed, applying
    backspace, Ctrl-C and Ctrl-D, and answering with the parsed command line. */
module NetInput {
  import opened Strings
  import opened Wrap
  import opened TtyParser

  /** The byte tables of coco/char.py, which is not part of this model; their
      contents are left open. */
  datatype CharTable = CharTable(
    backspace: map<Bytes, Bytes>,  // BACKSPACE_CHAR: key -> bytes that erase one character on screen
    enter: set<Bytes>,             // ENTER_CHAR
    unsupported: set<Bytes>,       // UNSUPPORTED_CHAR
    bell: Bytes)                   // BELL_CHAR

  /** What one call of `net_input` is given besides the peer and the terminal
      emulator. */
  datatype Config = Config(table: CharTable, prompt: string, sensitive: bool)

  const CtrlC: byte := 3
  const CtrlD: byte := 4
  const Escape: byte := 0x1b

  /** How the `if` chain of the loop treats a (non-empty) chunk; the order of
      the tests decides: backspace first, then Ctrl-C, Ctrl-D, escape or
      unsupported, and enter. */
  datatype Key = Erase | Interrupt | EndOfTransmission | Ignored | Submit | Typed

  function Classify(t: CharTable, data: Bytes): Key
  {
    if data in t.backspace then Erase
    else if |data| > 0 && data[0] == CtrlC then Interrupt
    else if |data| > 0 && data[0] == CtrlD then EndOfTransmission
    else if (|data| > 0 && data[0] == Escape) || data in t.unsupported then Ignored
    else if data in t.enter then Submit
    else Typed
  }

  /** What is written back for a typed chunk: one `*` per byte when the input
      is sensitive, the chunk itself otherwise. */
  function Echo(data: Bytes, sensitive: bool): (r: Data)
    ensures sensitive ==> r.Text? && |r.text| == |data| && forall i :: 0 <= i < |r.text| ==> r.text[i] == '*'
    ensures !sensitive ==> r == Binary(data)
  {
    if sensitive then Text(Repeat("*", |data|)) else Binary(data)
  }

  /** How a session ends: the loop breaks, Ctrl-D is read, or enter is read
      with the given chunks typed since the last Ctrl-C. */
  datatype Outcome = Closed | Quit | Entered(typed: seq<Bytes>)

  /** What `net_input` returns for an outcome: `None`, `'q'`, or the command
      line the terminal emulator shows for the typed chunks, stripped. */
  function Answer(emulate: Emulator, o: Outcome): Option<string>
  {
    match o
    case Closed => None
    case Quit => Some("q")
    case Entered(typed) => Some(Strip(ParseInputOf(emulate(DefaultWidth, DefaultHeight, typed))))
  }

  /** One turn of the loop: either it goes on with a new buffer, or it ends
      the session; in both cases it has written `out` to the peer. */
  datatype Turn = Continue(buffer: seq<Bytes>, out: seq<Data>) | Finish(outcome: Outcome, out: seq<Data>)

  function TurnOf(c: Config, buffer: seq<Bytes>, data: Bytes): Turn
  {
    match Classify(c.table, data)
    case Erase =>
      if |buffer| > 0 then Continue(buffer[..|buffer| - 1], [Binary(c.table.backspace[data])])
      else Continue(buffer, [Binary(c.table.bell)])
    case Interrupt => Continue([], [Text("^C\r\n" + c.prompt + " ")])
    case EndOfTransmission => Finish(Quit, [])
    case Ignored => Continue(buffer, [Binary([])])
    case Submit => Finish(Entered(buffer), [WrapWithLineFeed(Binary([]), 0, 2)])
    case Typed => Continue(buffer + [data], [Echo(data, sensitive := c.sensitive)])
  }

  /** A whole session from a given buffer: how it ends, what is written, and
      how many chunks are read. */
  datatype Session = Session(outcome: Outcome, out: seq<Data>, consumed: nat)

  function Run(c: Config, buffer: seq<Bytes>, incoming: seq<Bytes>, closed: bool): (s: Session)
    ensures s.consumed <= |incoming|
    decreases |incoming|
  {
    if |incoming| == 0 then Session(Closed, [], 0)
    else if |incoming[0]| == 0 || closed then Session(Closed, [], 1)
    else
      match TurnOf(c, buffer, incoming[0])
      case Finish(outcome, out) => Session(outcome, out, 1)
      case Continue(next, out) =>
        var s := Run(c, next, incoming[1..], closed);
        Session(s.outcome, out + s.out, s.consumed + 1)
  }

  /** How a session ends: with a line or `'q'` only right after reading an
      enter key or a Ctrl-D (the latter always giving `'q'`), and with `None` only
      when the peer is closed, ran out of chunks or delivered an empty one. */
  lemma {:induction false} RunEnds(c: Config, buffer: seq<Bytes>, incoming: seq<Bytes>, closed: bool)
    ensures var s := Run(c, buffer, incoming, closed);
      && (!s.outcome.Closed? ==>
            s.consumed > 0 && !closed && Classify(c.table, incoming[s.consumed - 1]) in {Submit, EndOfTransmission})
      && (s.outcome.Entered? <==>
            s.consumed > 0 && !closed && incoming[s.consumed - 1] != []
            && Classify(c.table, incoming[s.consumed - 1]) == Submit)
      && (s.outcome == Quit <==>
            s.consumed > 0 && !closed && incoming[s.consumed - 1] != []
            && Classify(c.table, incoming[s.consumed - 1]) == EndOfTransmission)
      && (s.outcome.Closed? ==>
            closed || s.consumed == |incoming| || (s.consumed > 0 && incoming[s.consumed - 1] == []))
    decreases |incoming|
  {
    if |incoming| > 0 && |incoming[0]| > 0 && !closed {
      match TurnOf(c, buffer, incoming[0])
      case Finish(_, _) =>
      case Continue(next, _) =>
        RunEnds(c, next, incoming[1..], closed);
    }
  }

  /** A turn that goes on is followed by the session from its new buffer; in
      terms of everything the peer has been sent (`written` before the turn),
      the turn's own output comes first. */
  lemma RunContinues(c: Config, buffer: seq<Bytes>, incoming: seq<Bytes>, closed: bool,
                     next: seq<Bytes>, out: seq<Data>, written: seq<Data>)
    requires |incoming| > 0 && |incoming[0]| > 0 && !closed
    requires TurnOf(c, buffer, incoming[0]) == Continue(next, out)
    ensures var r := Run(c, next, incoming[1..], closed);
      && Run(c, buffer, incoming, closed) == Session(r.outcome, out + r.out, r.consumed + 1)
      && written + Run(c, buffer, incoming, closed).out == (written + out) + r.out
  {
  }

  /** A turn that finishes ends the session after one chunk. */
  lemma RunFinishes(c: Config, buffer: seq<Bytes>, incoming: seq<Bytes>, closed: bool, outcome: Outcome, out: seq<Data>)
    requires |incoming| > 0 && |incoming[0]| > 0 && !closed
    requires TurnOf(c, buffer, incoming[0]) == Finish(outcome, out)
    ensures Run(c, buffer, incoming, closed) == Session(outcome, out, 1)
  {
  }

  /** A chunk after which the loop goes on. */
  predicate Continues(t: CharTable, data: Bytes)
  {
    |data| > 0 && Classify(t, data) in {Erase, Interrupt, Ignored, Typed}
  }

  /** A Ctrl-D ends the session with `'q'` however many chunks that let the
      loop go on come before it, and nothing after it is read. */
  lemma {:induction false} CtrlDQuits(c: Config, buffer: seq<Bytes>, pre: seq<Bytes>, d: Bytes, rest: seq<Bytes>)
    requires forall i :: 0 <= i < |pre| ==> Continues(c.table, pre[i])
    requires |d| > 0 && d[0] == CtrlD && d !in c.table.backspace
    ensures var s := Run(c, buffer, pre + [d] + rest, false);
      s.outcome == Quit && s.consumed == |pre| + 1
    decreases |pre|
  {
    assert Classify(c.table, d) == EndOfTransmission;
    if |pre| > 0 {
      assert (pre + [d] + rest)[1..] == pre[1..] + [d] + rest;
      match TurnOf(c, buffer, pre[0])
      case Continue(next, _) =>
        CtrlDQuits(c, next, pre[1..], d, rest);
    }
  }

  /** The `*` or the chunk echoed for each typed chunk, in order. */
  function Echoes(chunks: seq<Bytes>, sensitive: bool): seq<Data>
  {
    if |chunks| == 0 then [] else [Echo(chunks[0], sensitive)] + Echoes(chunks[1..], sensitive)
  }

  predicate IsTyped(t: CharTable, data: Bytes)
  {
    |data| > 0 && Classify(t, data) == Typed
  }

  /** Typing some chunks and pressing enter submits exactly those chunks,
      appended to the buffer, after echoing each of them and then writing
      two line feeds. */
  lemma {:induction false} TypedThenEnter(c: Config, buffer: seq<Bytes>, typed: seq<Bytes>, e: Bytes, rest: seq<Bytes>)
    requires forall i :: 0 <= i < |typed| ==> IsTyped(c.table, typed[i])
    requires |e| > 0 && Classify(c.table, e) == Submit
    ensures Run(c, buffer, typed + [e] + rest, false)
      == Session(Entered(buffer + typed), Echoes(typed, c.sensitive) + [Binary(CRLFBytes + CRLFBytes)], |typed| + 1)
    decreases |typed|
  {
    assert WrapWithLineFeed(Binary([]), 0, 2) == Binary(CRLFBytes + CRLFBytes);
    if |typed| == 0 {
      assert typed + [e] + rest == [e] + rest;
      assert buffer + typed == buffer;
      assert TurnOf(c, buffer, e) == Finish(Entered(buffer), [Binary(CRLFBytes + CRLFBytes)]);
    } else {
      var x, incoming := typed[0], typed + [e] + rest;
      var echo, crlf := Echo(x, c.sensitive), Binary(CRLFBytes + CRLFBytes);
      assert incoming[0] == x && incoming[1..] == typed[1..] + [e] + rest;
      assert TurnOf(c, buffer, x) == Continue(buffer + [x], [echo]);
      RunContinues(c, buffer, incoming, false, buffer + [x], [echo], []);
      TypedThenEnter(c, buffer + [x], typed[1..], e, rest);
      assert buffer + [x] + typed[1..] == buffer + typed;
      var more := Echoes(typed[1..], c.sensitive);
      assert Echoes(typed, c.sensitive) == [echo] + more;
      assert [echo] + (more + [crlf]) == ([echo] + more) + [crlf];
    }
  }

  /** A backspace right after a typed chunk takes that chunk back out of the
      buffer: the session goes on as if neither had been read. */
  lemma BackspaceUndoesTyped(c: Config, buffer: seq<Bytes>, x: Bytes, b: Bytes, rest: seq<Bytes>)
    requires IsTyped(c.table, x)
    requires |b| > 0 && b in c.table.backspace
    ensures var r := Run(c, buffer, rest, false);
      Run(c, buffer, [x, b] + rest, false)
        == Session(r.outcome, [Echo(x, c.sensitive), Binary(c.table.backspace[b])] + r.out, r.consumed + 2)
  {
    var incoming := [x, b] + rest;
    assert incoming[0] == x && incoming[1..] == [b] + rest;
    assert TurnOf(c, buffer, x) == Continue(buffer + [x], [Echo(x, c.sensitive)]);
    RunContinues(c, buffer, incoming, false, buffer + [x], [Echo(x, c.sensitive)], []);
    assert (buffer + [x])[..|buffer + [x]| - 1] == buffer;
    assert TurnOf(c, buffer + [x], b) == Continue(buffer, [Binary(c.table.backspace[b])]);
    assert ([b] + rest)[1..] == rest;
    var echo, erase := Echo(x, c.sensitive), Binary(c.table.backspace[b]);
    RunContinues(c, buffer + [x], [b] + rest, false, buffer, [erase], [echo]);
    assert [echo] + [erase] == [echo, erase];
  }

  /** A backspace on a non-empty buffer, whatever came before it, takes the
      last chunk back out of the buffer and writes the table's erasing bytes. */
  lemma BackspacePops(c: Config, buffer: seq<Bytes>, x: Bytes, b: Bytes, rest: seq<Bytes>)
    requires |b| > 0 && b in c.table.backspace
    ensures var r := Run(c, buffer, rest, false);
      Run(c, buffer + [x], [b] + rest, false)
        == Session(r.outcome, [Binary(c.table.backspace[b])] + r.out, r.consumed + 1)
  {
    assert ([b] + rest)[1..] == rest;
    assert (buffer + [x])[..|buffer|] == buffer;
  }

  /** An escape sequence or an unsupported key writes `b''` and leaves the
      buffer as it was. */
  lemma IgnoredKeepsBuffer(c: Config, buffer: seq<Bytes>, k: Bytes, rest: seq<Bytes>)
    requires |k| > 0 && Classify(c.table, k) == Ignored
    ensures var r := Run(c, buffer, rest, false);
      Run(c, buffer, [k] + rest, false) == Session(r.outcome, [Binary([])] + r.out, r.consumed + 1)
  {
    assert ([k] + rest)[1..] == rest;
  }

  /** A backspace on an empty buffer rings the bell and changes nothing. */
  lemma BackspaceOnEmptyRings(c: Config, b: Bytes, rest: seq<Bytes>)
    requires |b| > 0 && b in c.table.backspace
    ensures var r := Run(c, [], rest, false);
      Run(c, [], [b] + rest, false) == Session(r.outcome, [Binary(c.table.bell)] + r.out, r.consumed + 1)
  {
    assert ([b] + rest)[1..] == rest;
  }

  /** After Ctrl-C the session no longer depends on what was typed before it. */
  lemma InterruptForgets(c: Config, buffer1: seq<Bytes>, buffer2: seq<Bytes>, incoming: seq<Bytes>, closed: bool)
    requires |incoming| > 0 && IsInterrupt(c.table, incoming[0])
    ensures Run(c, buffer1, incoming, closed) == Run(c, buffer2, incoming, closed)
  {
  }

  /** Ctrl-C on any buffer writes `^C`, a line break and the prompt again,
      and the session goes on from an empty buffer. */
  lemma InterruptClears(c: Config, buffer: seq<Bytes>, i: Bytes, rest: seq<Bytes>)
    requires IsInterrupt(c.table, i)
    ensures var r := Run(c, [], rest, false);
      Run(c, buffer, [i] + rest, false)
        == Session(r.outcome, [Text("^C\r\n" + c.prompt + " ")] + r.out, r.consumed + 1)
  {
    assert ([i] + rest)[1..] == rest;
  }

  predicate IsInterrupt(t: CharTable, data: Bytes)
  {
    |data| > 0 && Classify(t, data) == Interrupt
  }

  /** Ctrl-C followed by enter submits an empty buffer, whatever was typed,
      and `net_input` answers with the command line of an empty screen. */
  lemma InterruptThenEnter(c: Config, buffer: seq<Bytes>, i: Bytes, e: Bytes, rest: seq<Bytes>)
    requires IsInterrupt(c.table, i)
    requires |e| > 0 && Classify(c.table, e) == Submit
    ensures Run(c, buffer, [i, e] + rest, false)
      == Session(Entered([]), [Text("^C\r\n" + c.prompt + " "), Binary(CRLFBytes + CRLFBytes)], 2)
  {
    assert ([i, e] + rest)[1..] == [e] + rest;
    assert WrapWithLineFeed(Binary([]), 0, 2) == Binary(CRLFBytes + CRLFBytes);
  }

  /** Ctrl-C then enter answers the empty line, given that the terminal shows
      only blank rows when nothing has been fed to it (a fresh 80x24 screen). */
  lemma InterruptThenEnterAnswer(c: Config, emulate: Emulator, buffer: seq<Bytes>, i: Bytes, e: Bytes, rest: seq<Bytes>)
    requires IsInterrupt(c.table, i)
    requires |e| > 0 && Classify(c.table, e) == Submit
    requires var rows := emulate(DefaultWidth, DefaultHeight, []);
      forall j :: 0 <= j < |rows| ==> IsBlank(rows[j])
    ensures Answer(emulate, Run(c, buffer, [i, e] + rest, false).outcome) == Some("")
  {
    InterruptThenEnter(c, buffer, i, e, rest);
    ParseInputAllBlank(emulate(DefaultWidth, DefaultHeight, []));
  }

  /** Masking the echo of sensitive input changes neither the outcome nor how
      many chunks are read, nor how many writes are made; only typed chunks
      are echoed differently. */
  lemma {:induction false} SensitiveOnlyMasks(table: CharTable, prompt: string, buffer: seq<Bytes>, incoming: seq<Bytes>, closed: bool)
    ensures var s, p := Run(Config(table, prompt, true), buffer, incoming, closed),
                        Run(Config(table, prompt, false), buffer, incoming, closed);
      s.outcome == p.outcome && s.consumed == p.consumed && |s.out| == |p.out|
    decreases |incoming|
  {
    if |incoming| > 0 && |incoming[0]| > 0 && !closed {
      var t1 := TurnOf(Config(table, prompt, true), buffer, incoming[0]);
      var t2 := TurnOf(Config(table, prompt, false), buffer, incoming[0]);
      assert t1.Continue? == t2.Continue? && |t1.out| == |t2.out|;
      if t1.Continue? {
        assert t1.buffer == t2.buffer;
        SensitiveOnlyMasks(table, prompt, t1.buffer, incoming[1..], closed);
      }
    }
  }

  /** A closed peer, or one whose next chunk is empty, ends the session at
      once with `None` and nothing written. */
  lemma ClosedEndsAtOnce(c: Config, buffer: seq<Bytes>, incoming: seq<Bytes>, closed: bool)
    requires closed || incoming == [] || incoming[0] == []
    ensures Run(c, buffer, incoming, closed) == Session(Closed, [], if incoming == [] then 0 else 1)
  {
  }

  /** The extra `strip()` that `net_input` applies to the parsed line changes
      nothing: the line is already stripped. */
  lemma AnswerIsParsedLine(emulate: Emulator, typed: seq<Bytes>)
    ensures Answer(emulate, Entered(typed)) == Some(ParseInputOf(emulate(DefaultWidth, DefaultHeight, typed)))
  {
    var line := ParseInputOf(emulate(DefaultWidth, DefaultHeight, typed));
    ParseInputIsStripped(emulate(DefaultWidth, DefaultHeight, typed));
    StrippedIsFixed(line);
  }

  lemma SubmitAnswer(emulate: Emulator, typed: seq<Bytes>, line: string)
    requires line == ParseInputOf(emulate(DefaultWidth, DefaultHeight, typed))
    ensures Answer(emulate, Entered(typed)) == Some(Strip(line))
  {
  }

  /** The peer: the chunks it will deliver, whether it is closed, and what has
      been written to it. */
  class Client {
    var incoming: seq<Bytes>
    var closed: bool
    var sent: seq<Data>

    constructor (incoming: seq<Bytes>, closed: bool)
      ensures this.incoming == incoming && this.closed == closed && sent == []
    {
      this.incoming := incoming;
      this.closed := closed;
      sent := [];
    }

    /** `recv(1)`: the next chunk, or `b''` once nothing more will come. */
    method Recv() returns (data: Bytes)
      modifies this
      ensures old(incoming) == [] ==> data == [] && incoming == []
      ensures old(incoming) != [] ==> data == old(incoming)[0] && incoming == old(incoming)[1..]
      ensures closed == old(closed) && sent == old(sent)
    {
      if incoming == [] {
        data := [];
      } else {
        data := incoming[0];
        incoming := incoming[1..];
      }
    }

    /** `send(data)`. */
    method Send(data: Bytes)
      modifies this
      ensures sent == old(sent) + [Binary(data)]
      ensures incoming == old(incoming) && closed == old(closed)
    {
      sent := sent + [Binary(data)];
    }

    /** `send_unicode(text)`. */
    method SendUnicode(text: string)
      modifies this
      ensures sent == old(sent) + [Text(text)]
      ensures incoming == old(incoming) && closed == old(closed)
    {
      sent := sent + [Text(text)];
    }
  }

  /** The body of the `net_input` loop for a chunk `data` the peer has
      delivered: the `if` chain that writes what the turn writes and either
      goes on with the new buffer (`done` false) or ends with the answer `r`. */
  method Respond(client: Client, parser: TtyIOParser, table: CharTable, prompt: string, sensitive: bool,
                 inputData: seq<Bytes>, data: Bytes) returns (next: seq<Bytes>, done: bool, r: Option<string>)
    requires parser.fed == [] && parser.width == DefaultWidth && parser.height == DefaultHeight
    modifies client, parser
    ensures var t := TurnOf(Config(table, prompt, sensitive), inputData, data);
      && client.sent == old(client.sent) + t.out
      && (t.Continue? ==> !done && next == t.buffer)
      && (t.Finish? ==> done && r == Answer(parser.emulate, t.outcome))
    ensures client.incoming == old(client.incoming) && client.closed == old(client.closed)
    ensures parser.fed == []
  {
    next, done, r := inputData, false, None;
    if data in table.backspace {
      var erase: Bytes;
      if |inputData| > 0 {
        erase := table.backspace[data];
        next := inputData[..|inputData| - 1];
      } else {
        erase := table.bell;
      }
      client.Send(erase);
    } else if |data| > 0 && data[0] == CtrlC {
      client.SendUnicode("^C\r\n" + prompt + " ");
      next := [];
    } else if |data| > 0 && data[0] == CtrlD {
      done, r := true, Some("q");
    } else if (|data| > 0 && data[0] == Escape) || data in table.unsupported {
      client.Send([]);
    } else if data in table.enter {
      var feed := WrapWithLineFeed(Binary([]), 0, 2);
      client.Send(feed.bytes);
      assert parser.fed + inputData == inputData;
      var option := parser.ParseInput(inputData);
      SubmitAnswer(parser.emulate, inputData, option);
      next := [];
      done, r := true, Some(Strip(option));
    } else {
      if sensitive {
        client.SendUnicode(Repeat("*", |data|));
      } else {
        client.Send(data);
      }
      next := inputData + [data];
    }
  }

  /** `net_input(client, prompt, sensitive, before, after)`, with the terminal
      emulator of its `TtyIOParser` and the tables of coco/char.py as
      parameters: it writes the prompt, then runs the session that `Run`
      describes from an empty buffer. */
  method NetInput(client: Client, table: CharTable, emulate: Emulator, prompt: string := "Opt> ",
                  sensitive: bool := false, before: int := 0, after: int := 0) returns (r: Option<string>)
    modifies client
    ensures var s := Run(Config(table, prompt, sensitive), [], old(client.incoming), old(client.closed));
      && r == Answer(emulate, s.outcome)
      && client.sent == old(client.sent) + [WrapWithLineFeed(Text(prompt), before, after)] + s.out
      && client.incoming == old(client.incoming)[s.consumed..]
      && client.closed == old(client.closed)
  {
    var inputData: seq<Bytes> := [];
    var parser := new TtyIOParser(emulate);
    var msg := WrapWithLineFeed(Text(prompt), before, after);
    client.SendUnicode(msg.text);
    ghost var c := Config(table, prompt, sensitive);
    ghost var total := Run(c, [], client.incoming, client.closed);
    ghost var start := client.sent;
    ghost var k := 0;
    while true
      invariant parser.fed == [] && parser.emulate == emulate
      invariant parser.width == DefaultWidth && parser.height == DefaultHeight
      invariant client.closed == old(client.closed)
      invariant k <= |old(client.incoming)| && client.incoming == old(client.incoming)[k..]
      invariant var cur := Run(c, inputData, client.incoming, client.closed);
        && total.outcome == cur.outcome
        && k + cur.consumed == total.consumed
        && start + total.out == client.sent + cur.out
      decreases |client.incoming|
    {
      ghost var was := client.incoming;
      var data := client.Recv();
      if |data| == 0 || client.closed {
        k := k + |was| - |client.incoming|;
        break;
      }
      k := k + 1;
      match TurnOf(c, inputData, data) {
        case Continue(next, out) =>
          RunContinues(c, inputData, was, client.closed, next, out, client.sent);
        case Finish(outcome, out) =>
          RunFinishes(c, inputData, was, client.closed, outcome, out);
      }
      var done, answer;
      inputData, done, answer := Respond(client, parser, table, prompt, sensitive, inputData, data);
      if done {
        return answer;
      }
    }
    r := None;
  }
}
