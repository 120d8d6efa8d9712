/** One statistic in shared memory: its bytes, and what writing, dumping and clearing do to them. */
module StatCell {
  import opened Arithmetic
  import opened Bytes
  import opened Text

  datatype StatCmd = NoCmd | PrintStatType | DumpStat | ClearStat | DumpTimeSeries | LogLevel | DumpLog | PrintTag

  /** A counter adds what is written, a status keeps it. */
  datatype Policy = Increment | Assign

  /** A feature of an accumulator: its name, the size of its shared type, the word that represents
      its value for given samples, and the entry and the title such a word is shown with. */
  datatype Feature = Feature(
    name: string,
    width: nat,
    extract: seq<int> -> nat,
    show: nat -> string,
    title: nat -> string)

  /** A simple stat of an integer type of `width` bytes, or an accumulator's shared summary. */
  datatype Stat =
    | Simple(policy: Policy, width: nat, signed: bool)
    | Accum(features: seq<Feature>)

  const CONTROL_WORD := 4

  /** The bytes of the first `n` features, behind which the next one lies. */
  function FeatureOffset(fs: seq<Feature>, n: nat): nat
    requires n <= |fs|
  {
    if n == 0 then 0 else FeatureOffset(fs, n - 1) + fs[n - 1].width
  }

  function FeatureBytes(fs: seq<Feature>): nat {
    FeatureOffset(fs, |fs|)
  }

  /** The size of the stat's shared type. */
  function CellSize(stat: Stat): nat {
    match stat
    case Simple(_, width, _) => width
    case Accum(fs) => FeatureBytes(fs) + CONTROL_WORD
  }

  /** The cell after `value` is written to it. */
  function Written(policy: Policy, cell: seq<byte>, value: int): (r: seq<byte>)
    ensures |r| == |cell|
  {
    Encode(WrittenValue(policy, Capacity(|cell|), Decode(cell), value), |cell|)
  }

  function WrittenValue(policy: Policy, capacity: nat, before: nat, value: int): (v: nat)
    requires capacity > 0
    ensures v < capacity
  {
    (if policy.Increment? then before + value else value) % capacity
  }

  lemma {:induction false} WrittenDecodes(policy: Policy, cell: seq<byte>, value: int)
    ensures Decode(Written(policy, cell, value)) == WrittenValue(policy, Capacity(|cell|), Decode(cell), value)
  {
    var c := Capacity(|cell|);
    var v := WrittenValue(policy, c, Decode(cell), value);
    DecodeEncode(v, |cell|);
    RemainderIsUnique(v, c, 0, v);
  }

  function Take(s: seq<byte>, n: nat): seq<byte> {
    if n <= |s| then s[..n] else s
  }

  function Drop(s: seq<byte>, n: nat): seq<byte> {
    if n <= |s| then s[n..] else []
  }

  /** Clearing zeroes a simple stat; of an accumulator it only raises the control word. */
  function Cleared(stat: Stat, cell: seq<byte>): (r: seq<byte>)
    ensures |cell| == CellSize(stat) ==> |r| == |cell|
  {
    match stat
    case Simple(_, width, _) => Zeros(width)
    case Accum(fs) => Take(cell, FeatureBytes(fs)) + Encode(1, CONTROL_WORD)
  }

  function WordIn(fs: seq<Feature>, cell: seq<byte>, i: nat): nat
    requires i < |fs|
  {
    Decode(Slice(cell, FeatureOffset(fs, i), fs[i].width))
  }

  /** The features' words at the front of the cell. */
  function Words(fs: seq<Feature>, cell: seq<byte>): (ws: seq<nat>)
    ensures |ws| == |fs| && forall i :: 0 <= i < |fs| ==> ws[i] == WordIn(fs, cell, i)
  {
    seq(|fs|, i requires 0 <= i < |fs| => WordIn(fs, cell, i))
  }

  function ZeroWords(n: nat): seq<nat> {
    seq(n, _ => 0)
  }

  /** The entry of the first `n` features, if they have the given words. */
  function TextsTo(fs: seq<Feature>, ws: seq<nat>, n: nat): string
    requires n <= |fs| == |ws|
  {
    if n == 0 then "" else TextsTo(fs, ws, n - 1) + (fs[n - 1].show(ws[n - 1]) + " ")
  }

  function Texts(fs: seq<Feature>, ws: seq<nat>): string
    requires |ws| == |fs|
  {
    TextsTo(fs, ws, |fs|)
  }

  /** The title above such entries. */
  function TitlesTo(fs: seq<Feature>, ws: seq<nat>, n: nat): string
    requires n <= |fs| == |ws|
  {
    if n == 0 then "" else TitlesTo(fs, ws, n - 1) + (" " + fs[n - 1].title(ws[n - 1]))
  }

  function Titles(fs: seq<Feature>, ws: seq<nat>): string
    requires |ws| == |fs|
  {
    TitlesTo(fs, ws, |fs|)
  }

  function NamesTo(fs: seq<Feature>, n: nat): string
    requires n <= |fs|
  {
    if n == 0 then "" else NamesTo(fs, n - 1) + (" " + fs[n - 1].name)
  }

  function FeatureNames(fs: seq<Feature>): string {
    NamesTo(fs, |fs|)
  }

  /** The number that the word of an integer type stands for, in two's complement if it is signed. */
  function NumberIn(signed: bool, capacity: nat, word: nat): int {
    if signed && 2 * word >= capacity then word - capacity else word
  }

  /** The type can hold the number. */
  predicate InRange(signed: bool, capacity: nat, x: int) {
    if signed then 0 <= 2 * x + capacity && 2 * x < capacity else 0 <= x < capacity
  }

  /** A number the type can hold survives being stored. */
  lemma NumberStored(signed: bool, capacity: nat, x: int)
    requires capacity > 0 && if signed then 0 <= capacity + 2 * x < 2 * capacity else 0 <= x < capacity
    ensures NumberIn(signed, capacity, x % capacity) == x
  {
    if x < 0 {
      RemainderIsUnique(x, capacity, -1, x + capacity);
    } else {
      RemainderIsUnique(x, capacity, 0, x);
    }
  }

  lemma NumberIsInRange(signed: bool, capacity: nat, word: nat)
    requires word < capacity
    ensures InRange(signed, capacity, NumberIn(signed, capacity, word))
  {
  }

  const UNSIGNED_LONG := 0x1_0000_0000_0000_0000

  /** The number that is printed for `x`, which is converted to `unsigned long` first. */
  function Unsigned(x: int): nat {
    x % UNSIGNED_LONG
  }

  /** A number is printed as what it is exactly if it is not negative. */
  lemma PrintedExactly(x: int)
    requires x < UNSIGNED_LONG
    ensures NumText(Unsigned(x)) == IntText(x) <==> x >= 0
  {
    if x < 0 {
      assert IntText(x)[0] == '-' && !IsDigit('-');
    } else {
      RemainderIsUnique(x, UNSIGNED_LONG, 0, x);
    }
  }

  /** The text of a dumped cell; an accumulator that is being cleared shows zeros. */
  function Shown(stat: Stat, cell: seq<byte>): string {
    match stat
    case Simple(_, _, signed) => NumText(Unsigned(NumberIn(signed, Capacity(|cell|), Decode(cell))))
    case Accum(fs) => Texts(fs, if ControlWord(fs, cell) == 0 then Words(fs, cell) else ZeroWords(|fs|))
  }

  /** The title of a dumped cell. */
  function TitleIn(stat: Stat, cell: seq<byte>): string {
    match stat
    case Simple(_, _, _) => ""
    case Accum(fs) => Titles(fs, Words(fs, cell))
  }

  /** The control word, behind the features. */
  function ControlWord(fs: seq<Feature>, cell: seq<byte>): nat {
    Decode(Drop(cell, FeatureBytes(fs)))
  }

  function TypeTitle(stat: Stat): string {
    if stat.Accum? then "Accumulator:" + FeatureNames(stat.features) else "Simple Stat"
  }

  /** The printable answer to a command. */
  class StatCmdOutput {
    var entryTitle: string
    var entries: seq<string>
    var dimensionSizes: seq<nat>

    constructor ()
      ensures entryTitle == "" && entries == [] && dimensionSizes == []
    {
      entryTitle, entries, dimensionSizes := "", [], [];
    }
  }
}
