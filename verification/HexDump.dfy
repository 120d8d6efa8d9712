/** Hex dumps of packets, as text that goes through the log and reads back as the same bytes. */
module HexDump {
  import opened Bytes
  import opened Sequences
  import opened LogBlocks
  import opened LogGenerator

  const SPACE: byte := 32
  const LINE_END: byte := 10
  const BYTES_PER_LINE := 32

  /** The lower-case hexadecimal digit of `d`. */
  function HexDigit(d: nat): (c: byte)
    requires d < 16
    ensures c != 0
  {
    if d < 10 then 48 + d else 97 + (d - 10)
  }

  function HexValue(c: byte): nat {
    if 48 <= c <= 57 then c - 48
    else if 97 <= c <= 102 then c - 87
    else 0
  }

  /** Byte `i` of a dump: two digits, then a line end after every 32nd byte and a space otherwise. */
  function Cell(b: byte, i: nat): (s: seq<byte>)
    ensures |s| == 3
  {
    [HexDigit(b / 16), HexDigit(b % 16), if (i + 1) % BYTES_PER_LINE == 0 then LINE_END else SPACE]
  }

  function Body(buf: seq<byte>): seq<byte> {
    if buf == [] then []
    else Body(buf[..|buf| - 1]) + Cell(buf[|buf| - 1], |buf| - 1)
  }

  /** Reads a dump back: every third character is a separator. */
  function Parse(text: seq<byte>): seq<nat> {
    if |text| < 3 then []
    else [16 * HexValue(text[0]) + HexValue(text[1])] + Parse(text[3..])
  }

  lemma {:induction false} ParseConcat(a: seq<byte>, b: seq<byte>)
    requires |a| % 3 == 0
    ensures Parse(a + b) == Parse(a) + Parse(b)
    decreases |a|
  {
    if a == [] {
      assert a + b == b;
    } else {
      assert (a + b)[3..] == a[3..] + b;
      ParseConcat(a[3..], b);
    }
  }

  lemma {:induction false} BodyLength(buf: seq<byte>)
    ensures |Body(buf)| == 3 * |buf|
    decreases |buf|
  {
    if buf != [] {
      BodyLength(buf[..|buf| - 1]);
    }
  }

  /** The dump determines the bytes: reading it back gives them all, in order. */
  lemma {:induction false} ParseBody(buf: seq<byte>)
    ensures Parse(Body(buf)) == buf
    decreases |buf|
  {
    if buf != [] {
      var front, b := buf[..|buf| - 1], buf[|buf| - 1];
      ParseBody(front);
      BodyLength(front);
      var c := Cell(b, |front|);
      ParseConcat(Body(front), c);
      assert c[3..] == [];
      assert Parse(c) == [b];
      assert buf == front + [b];
    }
  }

  /** Every byte takes its two lower-case hexadecimal digits, the higher one first, and behind them a line
      end (10) if it is the 32nd of its line and a space (32) otherwise. */
  lemma {:induction false} BodyAt(buf: seq<byte>, i: nat)
    requires i < |buf|
    ensures |Body(buf)| == 3 * |buf|
    ensures Body(buf)[3 * i] == "0123456789abcdef"[buf[i] / 16] as int
    ensures Body(buf)[3 * i + 1] == "0123456789abcdef"[buf[i] % 16] as int
    ensures Body(buf)[3 * i + 2] == if (i + 1) % 32 == 0 then 10 else 32
    decreases |buf|
  {
    BodyLength(buf);
    var front := buf[..|buf| - 1];
    BodyLength(front);
    if i < |front| {
      BodyAt(front, i);
    } else {
      DigitIs(buf[i] / 16);
      DigitIs(buf[i] % 16);
    }
  }

  lemma DigitIs(d: nat)
    requires d < 16
    ensures HexDigit(d) == "0123456789abcdef"[d] as int
  {
    assert d == 0 || d == 1 || d == 2 || d == 3 || d == 4 || d == 5 || d == 6 || d == 7
        || d == 8 || d == 9 || d == 10 || d == 11 || d == 12 || d == 13 || d == 14 || d == 15;
  }

  lemma {:induction false} BodyHasNoNul(buf: seq<byte>)
    ensures 0 !in Body(buf)
    decreases |buf|
  {
    if buf != [] {
      BodyHasNoNul(buf[..|buf| - 1]);
    }
  }

  /** The stream a logging statement fills; its text is logged when the statement ends. */
  class LogGenProxy {
    var ss: seq<byte>
    const enabled: bool
    const tagName: seq<byte>
    const levelName: seq<byte>

    constructor (enabled: bool, tagName: seq<byte>, levelName: seq<byte>)
      ensures ss == [] && this.enabled == enabled && this.tagName == tagName && this.levelName == levelName
    {
      this.ss := [];
      this.enabled := enabled;
      this.tagName := tagName;
      this.levelName := levelName;
    }

    method Put(text: seq<byte>)
      modifies this
      ensures ss == if enabled then old(ss) + text else old(ss)
    {
      if enabled {
        ss := ss + text;
      }
    }

    method HexDump(buf: seq<byte>, title: seq<byte>)
      modifies this
      ensures ss == if enabled then old(ss) + title + [10] + Body(buf) else old(ss)
    {
      if !enabled {
        return;
      }
      ss := ss + title + [LINE_END];
      ghost var head := ss;
      for i := 0 to |buf|
        invariant ss == head + Body(buf[..i])
      {
        assert buf[..i + 1][..i] == buf[..i];
        ConcatIsAssociative(head, Body(buf[..i]), Cell(buf[i], i));
        ss := ss + [HexDigit(buf[i] / 16), HexDigit(buf[i] % 16)];
        ss := ss + [if (i + 1) % BYTES_PER_LINE == 0 then LINE_END else SPACE];
      }
      assert buf[..|buf|] == buf;
    }

    /** The end of the logging statement. */
    method Finish(logger: Generator, stamp: TimeStamp)
      requires logger.Valid()
      modifies logger, logger.shm, logger.mutex
      ensures logger.Valid()
      ensures logger.mutex.held == old(logger.mutex.held)
      ensures ss == [] || old(logger.mutex.held) ==> logger.history == old(logger.history)
      ensures ss != [] && !old(logger.mutex.held) ==>
                logger.history == old(logger.history) + [Entry(ss + [0], stamp, tagName, levelName)]
    {
      if ss != [] {
        logger.WriteData(ss, tagName, levelName, stamp);
      }
    }
  }

  /** A dump handed to the log is a printable entry, and its text reads back as the dumped bytes. */
  lemma DumpReadsBack(buf: seq<byte>, title: seq<byte>, e: Entry)
    requires e.data == title + [LINE_END] + Body(buf) + [0]
    requires 0 !in title && |e.tag| < 16 && 0 !in e.tag && |e.level| < 8 && 0 !in e.level
    requires e.stamp.Representable()
    ensures e.Printable()
    ensures |title| + 1 <= |e.Text()| && Parse(e.Text()[|title| + 1..]) == buf
  {
    BodyHasNoNul(buf);
    var head := title + [LINE_END];
    assert e.Text() == head + Body(buf);
    assert 0 !in head + Body(buf);
    assert e.Text()[|title| + 1..] == Body(buf);
    ParseBody(buf);
  }
}
