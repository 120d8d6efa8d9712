/** What reading the log prints, line by line, in terms of the entries that went in. */
module LogLines {
  import opened Bytes
  import opened LogBlocks
  import opened Sequences
  import opened LogWindow
  import opened LogOrder
  import opened LogRetriever

  /** What is printed of an entry: nothing if its tag or level is excluded; otherwise the time, the tag and
      the level as far as they are asked for, in this order and each with a colon and a space behind it,
      then the text without its NUL and a line end. */
  lemma LineMeans(params: OutputCommand, e: Entry, line: seq<byte>)
    requires e.Printable() && line == if params.Shows(e) then params.Line(e) else []
    ensures |e.data| > 0
    ensures line ==
            if e.tag in params.excludeTags || e.level in params.excludeLevels then []
            else (if params.showTimeStamp then params.timeText(e.stamp) + [58, 32] else [])
                 + (if params.showTag then e.tag + [58, 32] else [])
                 + (if params.showLogLevel then e.level + [58, 32] else [])
                 + e.data[..|e.data| - 1] + [10]
  {
  }

  lemma {:induction false} RenderIsFlat(params: OutputCommand, es: seq<Entry>, lines: seq<seq<byte>>, n: nat)
    requires AllPrintable(es) && n <= |es| == |lines|
    requires forall j :: 0 <= j < |es| ==> lines[j] == if params.Shows(es[j]) then params.Line(es[j]) else []
    ensures params.RenderTo(es, n) == Flat(lines, n)
  {
    if n > 0 {
      RenderIsFlat(params, es, lines, n - 1);
    }
  }

  /** The lines of the entries, a part for each. */
  lemma RenderedLines(params: OutputCommand, es: seq<Entry>) returns (lines: seq<seq<byte>>)
    requires AllPrintable(es)
    ensures |lines| == |es| && params.Render(es) == Flat(lines, |lines|)
    ensures forall j :: 0 <= j < |es| ==>
              && |es[j].data| > 0
              && lines[j] ==
                 if es[j].tag in params.excludeTags || es[j].level in params.excludeLevels then []
                 else (if params.showTimeStamp then params.timeText(es[j].stamp) + [58, 32] else [])
                      + (if params.showTag then es[j].tag + [58, 32] else [])
                      + (if params.showLogLevel then es[j].level + [58, 32] else [])
                      + es[j].data[..|es[j].data| - 1] + [10]
  {
    lines := seq(|es|, j requires 0 <= j < |es| => if params.Shows(es[j]) then params.Line(es[j]) else []);
    RenderIsFlat(params, es, lines, |es|);
    forall j | 0 <= j < |es|
      ensures |es[j].data| > 0
      ensures lines[j] ==
              if es[j].tag in params.excludeTags || es[j].level in params.excludeLevels then []
              else (if params.showTimeStamp then params.timeText(es[j].stamp) + [58, 32] else [])
                   + (if params.showTag then es[j].tag + [58, 32] else [])
                   + (if params.showLogLevel then es[j].level + [58, 32] else [])
                   + es[j].data[..|es[j].data| - 1] + [10]
    {
      LineMeans(params, es[j], lines[j]);
    }
  }

  lemma RotationIsPrintable(s: seq<Entry>, first: nat)
    requires first < |s| && AllPrintable(s)
    ensures AllPrintable(Rotation(s, first))
  {
    forall e | e in Rotation(s, first) ensures e in s {
    }
  }

  /** What reading prints, line by line. It begins with the survivor with the smallest time stamp, by
      seconds and then by microseconds, and by place in memory if both are the same; it goes on in write
      order to the last survivor and round to the one before the first printed. */
  lemma LogTextMeans(params: OutputCommand, history: seq<Entry>, n: nat, s: seq<Entry>)
    returns (first: nat, es: seq<Entry>, lines: seq<seq<byte>>)
    requires n > 0 && s == Survivors(history, n) && s != [] && AllPrintable(s)
    ensures first < |s| && es == s[first..] + s[..first]
    ensures forall i :: 0 <= i < |s| && i != first ==>
              || s[first].stamp.sec < s[i].stamp.sec
              || (s[first].stamp.sec == s[i].stamp.sec && s[first].stamp.usec < s[i].stamp.usec)
              || (s[first].stamp.sec == s[i].stamp.sec && s[first].stamp.usec == s[i].stamp.usec
                  && HeadPlace(history, n, first) < HeadPlace(history, n, i))
    ensures |lines| == |es| && params.LogText(history, n) == Flat(lines, |lines|)
    ensures forall j :: 0 <= j < |es| ==>
              && |es[j].data| > 0
              && lines[j] ==
                 if es[j].tag in params.excludeTags || es[j].level in params.excludeLevels then []
                 else (if params.showTimeStamp then params.timeText(es[j].stamp) + [58, 32] else [])
                      + (if params.showTag then es[j].tag + [58, 32] else [])
                      + (if params.showLogLevel then es[j].level + [58, 32] else [])
                      + es[j].data[..|es[j].data| - 1] + [10]
  {
    first := ReadStart(history, n);
    FirstMeans(history, n, first);
    RotationIsPrintable(s, first);
    es := Rotation(s, first);
    lines := RenderedLines(params, es);
  }

  /** "Empty log!" and a line end, if nothing survives. */
  lemma EmptyLogText(params: OutputCommand, history: seq<Entry>, n: nat)
    requires n > 0 && Survivors(history, n) == []
    ensures params.LogText(history, n) == [69, 109, 112, 116, 121, 32, 108, 111, 103, 33, 10]
  {
  }
}
