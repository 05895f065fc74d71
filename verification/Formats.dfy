/** Binary formats: a parser together with the serialisations it has to read.

    A wire value w carries everything that the bytes do, such as which CompactSize form was used;
    meaning(w) is what the parser returns for it. */
module Formats {
  import opened Common
  import opened LittleEndian
  import opened BitcoinReader

  datatype Format<!W, !T> = Format(
    parse: (seq<byte>, nat) -> Parse<T>,
    valid: W -> bool,
    bytes: W -> seq<byte>,
    meaning: W -> T)

  /** The bytes b stand in v at the given position. */
  ghost predicate Holds(v: seq<byte>, pos: nat, b: seq<byte>) {
    pos + |b| <= |v| && v[pos..pos + |b|] == b
  }

  /** The parser is at a serialisation of w and returns its meaning and the position behind it. */
  ghost predicate IsParsedAs<W, T>(f: Format<W, T>, v: seq<byte>, pos: nat, w: W) {
    && f.valid(w)
    && Holds(v, pos, f.bytes(w))
    && f.parse(v, pos) == Done(f.meaning(w), pos + |f.bytes(w)|)
  }

  /** Completeness: every serialisation, at any position and followed by anything, is read back. */
  ghost predicate Reads<W(!new), T>(f: Format<W, T>) {
    forall w: W, v: seq<byte>, pos: nat {:trigger f.parse(v, pos), f.bytes(w)} ::
      f.valid(w) && Holds(v, pos, f.bytes(w)) ==> IsParsedAs(f, v, pos, w)
  }

  /** Soundness: whatever is accepted is a serialisation of some valid wire value. */
  ghost predicate Explains<W(!new), T>(f: Format<W, T>) {
    forall v: seq<byte>, pos: nat {:trigger f.parse(v, pos)} ::
      f.parse(v, pos).Done? ==> exists w: W :: IsParsedAs(f, v, pos, w)
  }

  lemma HoldsSplit(v: seq<byte>, pos: nat, a: seq<byte>, b: seq<byte>)
    ensures Holds(v, pos, a + b) <==> Holds(v, pos, a) && Holds(v, pos + |a|, b)
  {
    if pos + |a + b| <= |v| {
      var whole := v[pos..pos + |a + b|];
      assert whole == v[pos..pos + |a|] + v[pos + |a|..pos + |a| + |b|];
      assert (a + b)[..|a|] == a && (a + b)[|a|..] == b;
      assert whole[..|a|] == v[pos..pos + |a|] && whole[|a|..] == v[pos + |a|..pos + |a| + |b|];
    }
  }

  lemma TakeHolds(v: seq<byte>, pos: nat, b: seq<byte>)
    ensures Holds(v, pos, b) <==> Take(v, pos, |b|) == Done(b, pos + |b|)
  {
  }

  // Fixed-width numbers.

  lemma UintAtReads(v: seq<byte>, pos: nat, n: nat, width: nat)
    requires n < Pow256(width) && Holds(v, pos, LeBytes(n, width))
    ensures UintAt(v, pos, width) == Done(n, pos + width)
  {
    LeValueOfBytes(n, width);
  }

  lemma UintAtExplained(v: seq<byte>, pos: nat, width: nat)
    requires UintAt(v, pos, width).Done?
    ensures var n := UintAt(v, pos, width).value;
      && n < Pow256(width)
      && Holds(v, pos, LeBytes(n, width))
      && UintAt(v, pos, width) == Done(n, pos + width)
  {
    LeBytesOfValue(v[pos..pos + width]);
  }

  // CompactSize: four forms, of which only the shortest is canonical but every one is read.

  datatype Form = Short | Word16 | Word32 | Word64

  predicate FormFits(form: Form, n: nat) {
    match form
    case Short => n < 0xFD
    case Word16 => n < 0x1_0000
    case Word32 => n < 0x1_0000_0000
    case Word64 => n < 0x1_0000_0000_0000_0000
  }

  function Width(form: Form): nat {
    match form
    case Short => 1
    case Word16 => 2
    case Word32 => 4
    case Word64 => 8
  }

  function Marker(form: Form): seq<byte> {
    match form
    case Short => []
    case Word16 => [0xFD]
    case Word32 => [0xFE]
    case Word64 => [0xFF]
  }

  function CompactBytes(form: Form, n: nat): seq<byte> { Marker(form) + LeBytes(n, Width(form)) }

  /** The form that serialisers must choose. */
  function Minimal(n: nat): (form: Form)
    ensures n < 0x1_0000_0000_0000_0000 ==> FormFits(form, n)
    ensures forall other: Form :: FormFits(other, n) ==> |CompactBytes(form, n)| <= |CompactBytes(other, n)|
  {
    if n < 0xFD then Short else if n < 0x1_0000 then Word16 else if n < 0x1_0000_0000 then Word32 else Word64
  }

  lemma OneByte(n: byte)
    ensures LeBytes(n, 1) == [n]
  {
    assert LeBytes(n, 1) == [n % 256] + LeBytes(n / 256, 0);
  }

  lemma FitsWidth(form: Form, n: nat)
    requires form != Short
    ensures FormFits(form, n) <==> n < Pow256(Width(form))
  {
    hide Pow256;
    Widths();
  }

  lemma FirstByteHolds(v: seq<byte>, pos: nat, first: byte)
    ensures Holds(v, pos, [first]) <==> pos < |v| && v[pos] == first
  {
  }

  lemma ShortFormAt(v: seq<byte>, pos: nat)
    requires pos < |v| && v[pos] < 0xFD
    ensures CompactAt(v, pos) == Done(v[pos], pos + 1)
  {
  }

  lemma LongFormAt(v: seq<byte>, pos: nat, form: Form)
    requires form != Short && Holds(v, pos, Marker(form))
    ensures CompactAt(v, pos) == UintAt(v, pos + 1, Width(form))
  {
    hide UintAt;
    FirstByteHolds(v, pos, Marker(form)[0]);
  }

  lemma CompactAtReads(v: seq<byte>, pos: nat, form: Form, n: nat)
    requires FormFits(form, n) && Holds(v, pos, CompactBytes(form, n))
    ensures CompactAt(v, pos) == Done(n, pos + |CompactBytes(form, n)|)
  {
    hide LeBytes, CompactAt, UintAt, Pow256, Holds;
    if form == Short {
      OneByte(n);
      assert Marker(form) + LeBytes(n, 1) == [n];
      FirstByteHolds(v, pos, n);
      ShortFormAt(v, pos);
    } else {
      HoldsSplit(v, pos, Marker(form), LeBytes(n, Width(form)));
      FitsWidth(form, n);
      LongFormAt(v, pos, form);
      UintAtReads(v, pos + 1, n, Width(form));
    }
  }

  lemma CompactAtExplained(v: seq<byte>, pos: nat) returns (form: Form)
    requires CompactAt(v, pos).Done?
    ensures var n := CompactAt(v, pos).value;
      && FormFits(form, n)
      && Holds(v, pos, CompactBytes(form, n))
      && CompactAt(v, pos) == Done(n, pos + |CompactBytes(form, n)|)
  {
    var first := v[pos];
    hide LeBytes, CompactAt, UintAt, Pow256, Holds;
    form := if first < 0xFD then Short else if first == 0xFD then Word16 else if first == 0xFE then Word32 else Word64;
    FirstByteHolds(v, pos, first);
    if form == Short {
      ShortFormAt(v, pos);
      OneByte(first);
      assert Marker(form) + LeBytes(first, 1) == [first];
    } else {
      LongFormAt(v, pos, form);
      UintAtExplained(v, pos + 1, Width(form));
      FitsWidth(form, CompactAt(v, pos).value);
      HoldsSplit(v, pos, Marker(form), LeBytes(CompactAt(v, pos).value, Width(form)));
    }
  }

  /** Only the short form starts with a byte below 0xFD, and then with the number itself. */
  lemma CompactFirstByte(form: Form, n: nat)
    requires FormFits(form, n)
    ensures var b := CompactBytes(form, n);
      && 1 <= |b| <= 9
      && (form == Short ==> b == [n])
      && (form != Short ==> b[0] >= 0xFD)
  {
    hide LeBytes;
    if form == Short {
      OneByte(n);
    }
  }

  // Length-prefixed bytes.

  datatype WireString = WireString(form: Form, data: seq<byte>) {
    predicate Valid() { FormFits(form, |data|) }

    function Bytes(): seq<byte> { CompactBytes(form, |data|) + data }
  }

  function StringAt(v: seq<byte>, pos: nat): Parse<seq<byte>> {
    var (length, next) :- CompactAt(v, pos);
    Take(v, next, length)
  }

  lemma StringAtReads(v: seq<byte>, pos: nat, w: WireString)
    requires w.Valid() && Holds(v, pos, w.Bytes())
    ensures StringAt(v, pos) == Done(w.data, pos + |w.Bytes()|)
  {
    hide CompactBytes, CompactAt;
    HoldsSplit(v, pos, CompactBytes(w.form, |w.data|), w.data);
    CompactAtReads(v, pos, w.form, |w.data|);
    TakeHolds(v, pos + |CompactBytes(w.form, |w.data|)|, w.data);
  }

  lemma StringAtExplained(v: seq<byte>, pos: nat) returns (w: WireString)
    requires StringAt(v, pos).Done?
    ensures w.Valid() && Holds(v, pos, w.Bytes())
    ensures StringAt(v, pos) == Done(w.data, pos + |w.Bytes()|)
  {
    hide CompactBytes, CompactAt;
    var form := CompactAtExplained(v, pos);
    w := WireString(form, StringAt(v, pos).value);
    TakeHolds(v, CompactAt(v, pos).next, w.data);
    HoldsSplit(v, pos, CompactBytes(w.form, |w.data|), w.data);
  }

  // Repetition.

  /** What a counted loop computes: n more values parsed and appended to those already read. */
  function ManyFrom<T>(parse: (seq<byte>, nat) -> Parse<T>, v: seq<byte>, pos: nat, n: nat, read: seq<T>): Parse<seq<T>>
    decreases n
  {
    if n == 0 then Done(read, pos)
    else
      var (x, next) :- parse(v, pos);
      ManyFrom(parse, v, next, n - 1, read + [x])
  }

  function Many<T>(parse: (seq<byte>, nat) -> Parse<T>, v: seq<byte>, pos: nat, n: nat): Parse<seq<T>> {
    ManyFrom(parse, v, pos, n, [])
  }

  predicate AllValid<W, T>(f: Format<W, T>, ws: seq<W>) {
    forall i :: 0 <= i < |ws| ==> f.valid(ws[i])
  }

  function ManyBytes<W, T>(f: Format<W, T>, ws: seq<W>): seq<byte> {
    if ws == [] then [] else f.bytes(ws[0]) + ManyBytes(f, ws[1..])
  }

  function Meanings<W, T>(f: Format<W, T>, ws: seq<W>): (xs: seq<T>)
    ensures |xs| == |ws|
  {
    seq(|ws|, i requires 0 <= i < |ws| => f.meaning(ws[i]))
  }

  lemma MeaningsOfCons<W, T>(f: Format<W, T>, w: W, ws: seq<W>, read: seq<T>)
    ensures read + Meanings(f, [w] + ws) == (read + [f.meaning(w)]) + Meanings(f, ws)
  {
  }

  lemma {:induction false} ManyReads<W(!new), T>(f: Format<W, T>, v: seq<byte>, pos: nat, ws: seq<W>, read: seq<T>)
    requires Reads(f) && AllValid(f, ws) && Holds(v, pos, ManyBytes(f, ws))
    ensures ManyFrom(f.parse, v, pos, |ws|, read) == Done(read + Meanings(f, ws), pos + |ManyBytes(f, ws)|)
    decreases |ws|
  {
    hide Holds;
    if ws == [] {
      assert read + Meanings(f, ws) == read;
    } else {
      hide Meanings;
      var w, rest := ws[0], ws[1..];
      HoldsSplit(v, pos, f.bytes(w), ManyBytes(f, rest));
      assert IsParsedAs(f, v, pos, w) by {
        assert f.valid(w);
        var attempt := f.parse(v, pos);
      }
      ManyReads(f, v, pos + |f.bytes(w)|, rest, read + [f.meaning(w)]);
      assert ws == [w] + rest;
      MeaningsOfCons(f, w, rest, read);
    }
  }

  lemma {:induction false} ManyExplained<W(!new), T>(f: Format<W, T>, v: seq<byte>, pos: nat, n: nat, read: seq<T>)
    returns (ws: seq<W>)
    requires Explains(f) && pos <= |v| && ManyFrom(f.parse, v, pos, n, read).Done?
    ensures |ws| == n && AllValid(f, ws) && Holds(v, pos, ManyBytes(f, ws))
    ensures ManyFrom(f.parse, v, pos, n, read) == Done(read + Meanings(f, ws), pos + |ManyBytes(f, ws)|)
    decreases n
  {
    if n == 0 {
      ws := [];
      assert read + Meanings(f, ws) == read;
    } else {
      var w :| IsParsedAs(f, v, pos, w);
      var rest := ManyExplained(f, v, pos + |f.bytes(w)|, n - 1, read + [f.meaning(w)]);
      ws := [w] + rest;
      HoldsSplit(v, pos, f.bytes(w), ManyBytes(f, rest));
      assert ws[1..] == rest;
      MeaningsOfCons(f, w, rest, read);
    }
  }

  // Counted repetition.

  datatype Counted<W> = Counted(form: Form, items: seq<W>)

  predicate CountedValid<W, T>(f: Format<W, T>, c: Counted<W>) {
    FormFits(c.form, |c.items|) && AllValid(f, c.items)
  }

  function CountedBytes<W, T>(f: Format<W, T>, c: Counted<W>): seq<byte> {
    CompactBytes(c.form, |c.items|) + ManyBytes(f, c.items)
  }

  function CountedAt<T>(parse: (seq<byte>, nat) -> Parse<T>, v: seq<byte>, pos: nat): Parse<seq<T>> {
    var (count, next) :- CompactAt(v, pos);
    Many(parse, v, next, count)
  }

  lemma CountedReads<W(!new), T>(f: Format<W, T>, v: seq<byte>, pos: nat, c: Counted<W>)
    requires Reads(f) && CountedValid(f, c) && Holds(v, pos, CountedBytes(f, c))
    ensures CountedAt(f.parse, v, pos) == Done(Meanings(f, c.items), pos + |CountedBytes(f, c)|)
  {
    hide CompactBytes, CompactAt, ManyFrom, Reads;
    var prefix := CompactBytes(c.form, |c.items|);
    HoldsSplit(v, pos, prefix, ManyBytes(f, c.items));
    CompactAtReads(v, pos, c.form, |c.items|);
    ManyReads(f, v, pos + |prefix|, c.items, []);
    assert [] + Meanings(f, c.items) == Meanings(f, c.items);
  }

  lemma CountedExplained<W(!new), T>(f: Format<W, T>, v: seq<byte>, pos: nat) returns (c: Counted<W>)
    requires Explains(f) && CountedAt(f.parse, v, pos).Done?
    ensures CountedValid(f, c) && Holds(v, pos, CountedBytes(f, c))
    ensures CountedAt(f.parse, v, pos) == Done(Meanings(f, c.items), pos + |CountedBytes(f, c)|)
  {
    hide CompactBytes, CompactAt, ManyFrom, Explains;
    var form := CompactAtExplained(v, pos);
    var count := CompactAt(v, pos).value;
    var ws := ManyExplained(f, v, CompactAt(v, pos).next, count, []);
    c := Counted(form, ws);
    HoldsSplit(v, pos, CompactBytes(form, count), ManyBytes(f, ws));
    assert [] + Meanings(f, ws) == Meanings(f, ws);
  }

  // Sizes.

  lemma {:induction false} ManySize<W(!new), T>(f: Format<W, T>, ws: seq<W>, least: nat)
    requires AllValid(f, ws) && forall w :: f.valid(w) ==> |f.bytes(w)| >= least
    ensures |ManyBytes(f, ws)| >= least * |ws|
  {
    if ws != [] {
      ManySize(f, ws[1..], least);
      assert least * |ws| == least + least * (|ws| - 1);
    }
  }
}
