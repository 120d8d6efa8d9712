/** Whole runs of logging and reading: what went in against what comes out. */
module LogRun {
  import opened Bytes
  import opened Sequences
  import opened LogBlocks
  import opened LogWindow
  import opened LogOrder
  import opened LogMemory
  import opened LogGenerator
  import LogProtocol
  import opened LogRetriever
  import opened LogLines
  import opened HexDump

  /** A text handed to the log, with the names and the time it is logged under. */
  datatype Message = Message(text: seq<byte>, tag: seq<byte>, level: seq<byte>, stamp: TimeStamp) {
    /** Text without NUL, and names that fit their fields. */
    predicate Supported() {
      0 !in text && |tag| < 16 && 0 !in tag && |level| < 8 && 0 !in level && stamp.Representable()
    }

    function ToEntry(): Entry {
      Entry(text + [0], stamp, tag, level)
    }
  }

  function Logged(ms: seq<Message>): (es: seq<Entry>)
    ensures |es| == |ms| && forall i :: 0 <= i < |ms| ==> es[i] == ms[i].ToEntry()
  {
    seq(|ms|, i requires 0 <= i < |ms| => ms[i].ToEntry())
  }

  lemma SupportedIsPrintable(m: Message)
    requires m.Supported()
    ensures m.ToEntry().Printable() && m.ToEntry().Text() == m.text
  {
    var data := m.text + [0];
    assert data[..|data| - 1] == m.text;
  }

  lemma LoggedIsPrintable(ms: seq<Message>, n: nat)
    requires forall i :: 0 <= i < |ms| ==> ms[i].Supported()
    ensures AllPrintable(Survivors(Logged(ms), n))
  {
    forall e | e in Logged(ms) ensures e.Printable() {
      var i :| 0 <= i < |ms| && Logged(ms)[i] == e;
      SupportedIsPrintable(ms[i]);
    }
    SurvivorsArePrintable(Logged(ms), n);
  }

  lemma InOrderPrintsAll(history: seq<Entry>, n: nat, params: OutputCommand)
    requires n > 0 && AllPrintable(Survivors(history, n))
    ensures var s := Survivors(history, n);
            s != [] && InOrder(history, n) ==> params.LogText(history, n) == params.Render(s)
  {
    var s := Survivors(history, n);
    if s != [] && InOrder(history, n) {
      assert StartsWith(history, n, 0);
      ReadStartIsFirst(history, n);
      assert Rotation(s, 0) == s;
    }
  }

  /** After any sequence of messages of any sizes, reading the log prints exactly the entries of the
      longest suffix whose blocks fit in the ring, each whole, from the one that is read first on,
      round to the one before it; in the order they were written if the first one's head comes
      before all others. */
  method LogThenRead(gen: Generator, reader: Retriever, ms: seq<Message>, params: OutputCommand)
    returns (output: seq<byte>)
    requires gen.Valid() && gen.history == [] && !gen.mutex.held
    requires reader.shm == gen.shm && reader.mutex == gen.mutex && reader.numLogEntries == gen.numLogEntries
    requires gen.numLogEntries < WORD && gen.numLogEntries * BLOCK < gen.shm.Length
    requires forall i :: 0 <= i < |ms| ==> ms[i].Supported()
    modifies gen, gen.shm, gen.mutex
    ensures AllPrintable(Survivors(Logged(ms), gen.numLogEntries))
    ensures LongestFit(Survivors(Logged(ms), gen.numLogEntries), Logged(ms), gen.numLogEntries)
    ensures output == params.LogText(Logged(ms), gen.numLogEntries)
    ensures var s := Survivors(Logged(ms), gen.numLogEntries);
            s != [] && InOrder(Logged(ms), gen.numLogEntries) ==> output == params.Render(s)
  {
    for i := 0 to |ms|
      invariant gen.Valid() && !gen.mutex.held && gen.history == Logged(ms)[..i]
    {
      gen.WriteData(ms[i].text, ms[i].tag, ms[i].level, ms[i].stamp);
      assert Logged(ms)[..i + 1] == Logged(ms)[..i] + [ms[i].ToEntry()];
    }
    assert Logged(ms)[..|ms|] == Logged(ms);
    LoggedIsPrintable(ms, gen.numLogEntries);
    SurvivorsIsLongestFittingSuffix(Logged(ms), gen.numLogEntries);
    output := reader.GetLog(params, gen);
    InOrderPrintsAll(Logged(ms), gen.numLogEntries, params);
  }

  lemma SurvivorsArePrintable(history: seq<Entry>, n: nat)
    requires AllPrintable(history)
    ensures AllPrintable(Survivors(history, n))
  {
    var s := Survivors(history, n);
    SurvivorsIsLongestFittingSuffix(history, n);
    forall e | e in s ensures e.Printable() {
      var i :| 0 <= i < |s| && s[i] == e;
      assert e == history[|history| - |s| + i];
    }
  }

  /** What is printed after a sequence of messages, line by line and in terms of the messages: of the last
      ones, `kept`, one begins, which has the smallest time stamp, and the others follow as they were
      logged, round to the one before it. */
  lemma MessagesPrinted(ms: seq<Message>, n: nat, params: OutputCommand, kept: seq<Message>)
    returns (first: nat, order: seq<Message>, lines: seq<seq<byte>>)
    requires n > 0 && forall i :: 0 <= i < |ms| ==> ms[i].Supported()
    requires kept == ms[|ms| - |Survivors(Logged(ms), n)|..] && kept != []
    ensures first < |kept| && order == kept[first..] + kept[..first]
    ensures forall i :: 0 <= i < |kept| ==>
              || kept[first].stamp.sec < kept[i].stamp.sec
              || (kept[first].stamp.sec == kept[i].stamp.sec && kept[first].stamp.usec <= kept[i].stamp.usec)
    ensures AllPrintable(Survivors(Logged(ms), n))
    ensures |lines| == |order| && params.LogText(Logged(ms), n) == Flat(lines, |lines|)
    ensures forall j :: 0 <= j < |order| ==>
              lines[j] ==
              if order[j].tag in params.excludeTags || order[j].level in params.excludeLevels then []
              else (if params.showTimeStamp then params.timeText(order[j].stamp) + [58, 32] else [])
                   + (if params.showTag then order[j].tag + [58, 32] else [])
                   + (if params.showLogLevel then order[j].level + [58, 32] else [])
                   + order[j].text + [10]
  {
    LoggedIsPrintable(ms, n);
    var s, es := Survivors(Logged(ms), n), [];
    SurvivorsAreMessages(ms, n, kept, s);
    first, es, lines := LogTextMeans(params, Logged(ms), n, s);
    order := kept[first..] + kept[..first];
    SameOrder(s, kept, first, es, order);
    FirstMessage(s, kept, first);
    forall j | 0 <= j < |order|
      ensures lines[j] ==
              if order[j].tag in params.excludeTags || order[j].level in params.excludeLevels then []
              else (if params.showTimeStamp then params.timeText(order[j].stamp) + [58, 32] else [])
                   + (if params.showTag then order[j].tag + [58, 32] else [])
                   + (if params.showLogLevel then order[j].level + [58, 32] else [])
                   + order[j].text + [10]
    {
      assert SameEntry(es[j], order[j]);
    }
  }

  lemma SameOrder(s: seq<Entry>, kept: seq<Message>, first: nat, es: seq<Entry>, order: seq<Message>)
    requires |s| == |kept| && forall i :: 0 <= i < |s| ==> SameEntry(s[i], kept[i])
    requires first < |s| && es == s[first..] + s[..first] && order == kept[first..] + kept[..first]
    ensures |es| == |order| && forall j :: 0 <= j < |es| ==> SameEntry(es[j], order[j])
  {
    forall j | 0 <= j < |es| ensures SameEntry(es[j], order[j]) {
      assert j < |s| - first ==> SameEntry(s[first + j], kept[first + j]);
      assert j >= |s| - first ==> SameEntry(s[j - (|s| - first)], kept[j - (|s| - first)]);
    }
  }

  lemma FirstMessage(s: seq<Entry>, kept: seq<Message>, first: nat)
    requires |s| == |kept| && first < |s| && forall i :: 0 <= i < |s| ==> SameEntry(s[i], kept[i])
    requires forall i :: 0 <= i < |s| && i != first ==>
               || s[first].stamp.sec < s[i].stamp.sec
               || (s[first].stamp.sec == s[i].stamp.sec && s[first].stamp.usec <= s[i].stamp.usec)
    ensures forall i :: 0 <= i < |kept| ==>
              || kept[first].stamp.sec < kept[i].stamp.sec
              || (kept[first].stamp.sec == kept[i].stamp.sec && kept[first].stamp.usec <= kept[i].stamp.usec)
  {
    forall i | 0 <= i < |kept|
      ensures || kept[first].stamp.sec < kept[i].stamp.sec
              || (kept[first].stamp.sec == kept[i].stamp.sec && kept[first].stamp.usec <= kept[i].stamp.usec)
    {
      assert SameEntry(s[i], kept[i]) && SameEntry(s[first], kept[first]);
    }
  }

  /** The entry carries the message. */
  ghost predicate SameEntry(e: Entry, m: Message) {
    && e.stamp == m.stamp && e.tag == m.tag && e.level == m.level
    && |e.data| > 0 && e.data[..|e.data| - 1] == m.text
  }

  lemma SurvivorsAreMessages(ms: seq<Message>, n: nat, kept: seq<Message>, s: seq<Entry>)
    requires s == Survivors(Logged(ms), n) && kept == ms[|ms| - |s|..]
    ensures |kept| == |s| && forall i :: 0 <= i < |s| ==> SameEntry(s[i], kept[i])
  {
    SurvivorsIsLongestFittingSuffix(Logged(ms), n);
    forall i | 0 <= i < |s| ensures SameEntry(s[i], kept[i]) {
      assert s[i] == Logged(ms)[|ms| - |s| + i];
    }
  }

  /** In every interleaving of writers and readers, a reader that has finished its copy prints exactly the
      survivors of the writes accepted when it took the lock, each whole. */
  method ReadAnyTime(reader: Retriever, copy: seq<byte>, params: OutputCommand, ghost s: LogProtocol.State,
                     ghost steps: seq<LogProtocol.Step>, ghost i: nat)
    returns (output: seq<byte>)
    requires LogProtocol.Init(s) && LogProtocol.Possible(s, steps) && i < |LogProtocol.Run(s, steps).snapshots|
    requires reader.numLogEntries == |s.ring| < WORD && reader.numLogEntries * BLOCK < |copy|
    requires var blocks := LogProtocol.Run(s, steps).snapshots[i].blocks;
             |blocks| == |s.ring| && Represents(copy, blocks) && SlackIsZero(copy, |s.ring|)
    requires AllPrintable(LogProtocol.Run(s, steps).accepted)
    ensures var end := LogProtocol.Run(s, steps);
            && end.snapshots[i].seen <= |end.accepted|
            && AllPrintable(Survivors(end.accepted[..end.snapshots[i].seen], |s.ring|))
            && output == params.LogText(end.accepted[..end.snapshots[i].seen], |s.ring|)
  {
    LogProtocol.SnapshotsAreWhole(s, steps, i);
    ghost var end := LogProtocol.Run(s, steps);
    ghost var history := end.accepted[..end.snapshots[i].seen];
    SurvivorsArePrintable(history, |s.ring|);
    output := reader.PrintCopy(copy, params, history);
  }

  /** Every entry that is not excluded has its line in the output. */
  lemma RenderShows(params: OutputCommand, es: seq<Entry>, i: nat, line: seq<byte>)
    returns (before: seq<byte>, after: seq<byte>)
    requires AllPrintable(es) && i < |es| && params.Shows(es[i]) && line == params.Line(es[i])
    ensures params.Render(es) == before + line + after
  {
    var lines := seq(|es|, j requires 0 <= j < |es| => if params.Shows(es[j]) then params.Line(es[j]) else []);
    RenderIsFlat(params, es, lines, |es|);
    before := Flat(lines, i);
    after := FlatHasPart(lines, |es|, i);
  }

  /** A dump that survives in the log is printed whole, and the dumped bytes can be read back from
      the output. */
  lemma SurvivingDumpReadsBack(buf: seq<byte>, title: seq<byte>, history: seq<Entry>, n: nat, i: nat,
                               params: OutputCommand)
    returns (before: seq<byte>, after: seq<byte>)
    requires n > 0 && i < |Survivors(history, n)| && AllPrintable(Survivors(history, n))
    requires var e := Survivors(history, n)[i];
             e.data == title + [LINE_END] + Body(buf) + [0] && 0 !in title && params.Shows(e)
    ensures var e := Survivors(history, n)[i];
            && |title| + 1 <= |e.Text()|
            && params.LogText(history, n) == before + e.Text()[|title| + 1..] + after
            && Parse(e.Text()[|title| + 1..]) == buf
  {
    var s, r := Survivors(history, n), ReadStart(history, n);
    var e := s[i];
    assert e in s;
    DumpReadsBack(buf, title, e);
    var es := Rotation(s, r);
    var j := if i >= r then i - r else |s| - r + i;
    assert es[j] == e;
    var front, back := RenderShows(params, es, j, params.Line(e));
    var prefix := params.Prefix(e.stamp, e.tag, e.level);
    before, after := front + prefix + e.Text()[..|title| + 1], [NEWLINE] + back;
    SplitLine(front, prefix, e.Text(), |title| + 1, back);
  }

  lemma SplitLine(front: seq<byte>, prefix: seq<byte>, text: seq<byte>, k: nat, back: seq<byte>)
    requires k <= |text|
    ensures front + (prefix + text + [NEWLINE]) + back == front + prefix + text[..k] + text[k..] + ([NEWLINE] + back)
  {
  }
}
