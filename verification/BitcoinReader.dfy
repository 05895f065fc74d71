/** The block-file reader: a cached position over a file stream, with optional de-obfuscation. */
module BitcoinReader {
  import opened Common
  import opened FileReader
  import opened LittleEndian
  import opened Obfuscation

  // The reader as a state machine.

  datatype ReaderState = ReaderState(m_file: Stream, m_readPosition: nat)

  /** readData: nothing for zero bytes, otherwise all of the bytes or a failed stream. */
  function ReadStep(c: Contents, key: Option<Key>, st: ReaderState, bytes: nat): (ReaderState, Result<seq<byte>>) {
    if bytes == 0 then (st, Ok([]))
    else
      var (told, preRead) := st.m_file.Tell();
      var (file, got) := told.Read(c, bytes);
      if !file.Good() then (st.(m_file := file), Err(FileReadingFailure))
      else
        (ReaderState(file, file.pos), Ok(if key.None? then got else XorAt(got, preRead, key.value)))
  }

  function SeekStep(st: ReaderState, position: nat): (ReaderState, bool) {
    var (file, ok) := st.m_file.Seek(position);
    (ReaderState(file, if ok then position else st.m_readPosition), ok)
  }

  function EofStep(c: Contents, st: ReaderState): (ReaderState, bool) {
    var (file, eof) := st.m_file.Peek(c);
    (st.(m_file := file), eof)
  }

  datatype Operation = ReadData(bytes: nat) | SetReadPosition(position: nat) | IsEof
  datatype Answer = Data(data: Result<seq<byte>>) | Sought(ok: bool) | AtEof(eof: bool)

  function Perform(c: Contents, key: Option<Key>, st: ReaderState, op: Operation): (ReaderState, Answer) {
    match op
    case ReadData(n) => var (st', r) := ReadStep(c, key, st, n); (st', Data(r))
    case SetReadPosition(p) => var (st', ok) := SeekStep(st, p); (st', Sought(ok))
    case IsEof => var (st', eof) := EofStep(c, st); (st', AtEof(eof))
  }

  function Run(c: Contents, key: Option<Key>, st: ReaderState, ops: seq<Operation>): (ReaderState, seq<Answer>)
    decreases |ops|
  {
    if ops == [] then (st, [])
    else
      var (st', answer) := Perform(c, key, st, ops[0]);
      var (end, answers) := Run(c, key, st', ops[1..]);
      (end, [answer] + answers)
  }

  /** The cached position is the stream's own, as long as the stream has not failed. */
  predicate Synchronised(st: ReaderState) {
    !st.m_file.failbit ==> st.m_readPosition == st.m_file.pos
  }

  /** An answer to a read is all the requested bytes or a read failure, never an obfuscation failure. */
  predicate Honest(op: Operation, answer: Answer) {
    && (op.ReadData? <==> answer.Data?)
    && (op.ReadData? && answer.data.Ok? ==> |answer.data.value| == op.bytes)
    && (op.ReadData? && answer.data.Err? ==> answer.data.error == FileReadingFailure)
  }

  /** Every run of reads, seeks and end-of-file tests keeps the cached position synchronised, and
      every read that succeeds returns exactly the requested length. */
  lemma {:induction false} RunKeepsCursor(c: Contents, key: Option<Key>, st: ReaderState, ops: seq<Operation>)
    requires Synchronised(st)
    ensures var (end, answers) := Run(c, key, st, ops);
      && Synchronised(end)
      && |answers| == |ops|
      && forall i :: 0 <= i < |ops| ==> Honest(ops[i], answers[i])
    decreases |ops|
  {
    hide XorByte;
    if ops != [] {
      var (st', answer) := Perform(c, key, st, ops[0]);
      assert Synchronised(st') && Honest(ops[0], answer);
      RunKeepsCursor(c, key, st', ops[1..]);
    }
  }

  /** One operation over the obfuscated file with the key does what it does over the plain file without one. */
  lemma PerformSimulates(plain: Contents, key: Key, st: ReaderState, op: Operation)
    ensures Perform(Obfuscate(plain, key), Some(key), st, op) == Perform(plain, None, st, op)
  {
    hide XorAt;
    if op.ReadData? && st.m_file.Good() && 0 < op.bytes && st.m_file.pos + op.bytes <= |plain| {
      XorOfSlice(Obfuscate(plain, key), key, st.m_file.pos, st.m_file.pos + op.bytes);
      ViewOfObfuscated(plain, key);
    }
  }

  /** So does every sequence of operations, failures included, from every state. */
  lemma {:induction false} RunSimulates(plain: Contents, key: Key, st: ReaderState, ops: seq<Operation>)
    ensures Run(Obfuscate(plain, key), Some(key), st, ops) == Run(plain, None, st, ops)
    decreases |ops|
  {
    hide Perform, Obfuscate;
    if ops != [] {
      PerformSimulates(plain, key, st, ops[0]);
      RunSimulates(plain, key, Perform(plain, None, st, ops[0]).0, ops[1..]);
    }
  }

  // What reading means over the de-obfuscated view.

  /** A parse of a view from a position: a value and the position behind it, or an error and the
      position at which reading stopped. */
  datatype Parse<+T> = Done(value: T, next: nat) | Fail(error: ErrorCode, at: nat) {
    predicate IsFailure() { Fail? }

    function PropagateFailure<U>(): Parse<U>
      requires Fail?
    {
      Fail(error, at)
    }

    function Extract(): (T, nat)
      requires Done?
    {
      (value, next)
    }
  }

  function Take(v: seq<byte>, pos: nat, n: nat): (r: Parse<seq<byte>>)
    ensures r.Done? ==> |r.value| == n
  {
    if pos + n <= |v| then Done(v[pos..pos + n], pos + n) else Fail(FileReadingFailure, pos)
  }

  function UintAt(v: seq<byte>, pos: nat, width: nat): Parse<nat> {
    var (b, next) :- Take(v, pos, width);
    Done(LeValue(b), next)
  }

  function Int32At(v: seq<byte>, pos: nat): Parse<int> {
    var (n, next) :- UintAt(v, pos, 4);
    Done(ToInt32(n), next)
  }

  function Array32At(v: seq<byte>, pos: nat): Parse<seq<byte>> {
    var (b, next) :- Take(v, pos, 32);
    Done(Reverse(b), next)
  }

  function CompactTailAt(v: seq<byte>, pos: nat, first: byte): Parse<nat> {
    if first < 0xFD then Done(first, pos)
    else UintAt(v, pos, if first == 0xFD then 2 else if first == 0xFE then 4 else 8)
  }

  function CompactAt(v: seq<byte>, pos: nat): Parse<nat> {
    var (b, next) :- Take(v, pos, 1);
    CompactTailAt(v, next, b[0])
  }

  lemma WrappedOffset(i: nat, readPosition: nat)
    ensures SizeT(i + readPosition) % 8 == (readPosition + i) % 8
  {
  }

  lemma XorPrefix(out: seq<byte>, data: seq<byte>, i: nat, offset: nat, key: Key)
    requires i < |out| == |data| && out[i..] == data[i..]
    requires out[..i] == XorAt(data, offset, key)[..i]
    ensures var next := out[i := XorByte(out[i], key[(offset + i) % 8])];
      next[i + 1..] == data[i + 1..] && next[..i + 1] == XorAt(data, offset, key)[..i + 1]
  {
    hide XorByte;
    assert out[i] == out[i..][0] == data[i];
    var next := out[i := XorByte(out[i], key[(offset + i) % 8])];
    assert next[..i] == out[..i] && next[i + 1..] == out[i..][1..] && data[i + 1..] == data[i..][1..];
    assert next[..i + 1] == next[..i] + [next[i]];
    assert XorAt(data, offset, key)[..i + 1] == XorAt(data, offset, key)[..i] + [XorAt(data, offset, key)[i]];
  }

  class BitcoinReader {
    const m_fileReader: FileReader
    const m_doXorObfuscation: bool
    const xorKey: seq<byte>
    var m_readPosition: nat

    /** The key file was read: eight bytes, or obfuscation is off. */
    predicate Configured() { m_doXorObfuscation ==> |xorKey| == 8 }

    function KeyOf(): Option<Key>
      requires Configured()
    {
      if m_doXorObfuscation then Some(xorKey) else None
    }

    function FileView(): Contents
      requires Configured()
    {
      View(m_fileReader.contents, KeyOf())
    }

    function State(): ReaderState
      reads this, m_fileReader
    {
      ReaderState(m_fileReader.m_file, m_readPosition)
    }

    /** Ready to read: nothing failed so far and the cached position is right. */
    ghost predicate Ready()
      reads this, m_fileReader
    {
      && Configured()
      && m_fileReader.m_file == Stream(m_readPosition, false, false)
      && m_readPosition <= |m_fileReader.contents|
    }

    /** The outcome of a method is that of a parse of the view: same value or same error, and in both
        cases the same position. */
    ghost predicate Concludes<T>(spec: Parse<T>, r: Result<T>)
      reads this
    {
      match spec
      case Done(value, next) => r == Ok(value) && m_readPosition == next
      case Fail(error, at) => r == Err(error) && m_readPosition == at
    }

    /** Moreover, after a success the reader is ready to go on. */
    ghost predicate Agrees<T>(spec: Parse<T>, r: Result<T>)
      reads this, m_fileReader
    {
      Concludes(spec, r) && (spec.Done? ==> Ready())
    }

    constructor (file: FileReader, xor: Option<Key>)
      requires file.m_file == Stream(0, false, false)
      ensures m_fileReader == file
      ensures Ready() && m_readPosition == 0
      ensures KeyOf() == xor
    {
      m_fileReader := file;
      m_readPosition := 0;
      m_doXorObfuscation := xor.Some?;
      xorKey := if xor.Some? then xor.value else [];
    }

    /** Opens a block file; a key path, if given, must name a file of at least eight bytes. */
    static method Open(block: Contents, xorFile: Option<Contents>) returns (r: Result<BitcoinReader>)
      ensures r.Ok? <==> xorFile.None? || |xorFile.value| >= 8
      ensures r.Err? ==> r.error == RuntimeException
      ensures r.Ok? ==> fresh(r.value) && fresh(r.value.m_fileReader)
      ensures r.Ok? ==> r.value.Ready() && r.value.m_readPosition == 0
      ensures r.Ok? ==> r.value.m_fileReader.contents == block
      ensures r.Ok? ==> r.value.FileView() == View(block, if xorFile.None? then None else Some(xorFile.value[..8]))
    {
      var file := new FileReader(block);
      if xorFile.None? {
        var plain := new BitcoinReader(file, None);
        return Ok(plain);
      }
      var keyFile := new FileReader(xorFile.value);
      var ok, key := keyFile.ReadBytes(8, []);
      if !ok {
        return Err(RuntimeException);
      }
      var reader := new BitcoinReader(file, Some(key));
      return Ok(reader);
    }

    /** The offset arithmetic wraps at 64 bits, which eight divides. */
    method XorObfuscation(readPosition: nat, data: seq<byte>) returns (ok: bool, out: seq<byte>)
      ensures ok <==> data != [] && |xorKey| == 8
      ensures ok ==> out == XorAt(data, readPosition, xorKey)
      ensures ok ==> BitsCombined(out, data, readPosition, xorKey)
    {
      hide XorByte, BitsCombined;
      ok, out := false, data;
      if |data| == 0 {
        return;
      }
      if |xorKey| == 0 {
        return;
      }
      var isCorrectSize := |xorKey| == 8;
      if !isCorrectSize {
        return;
      }
      var keySize := |xorKey|;
      for i := 0 to |data|
        invariant |out| == |data|
        invariant out[i..] == data[i..]
        invariant out[..i] == XorAt(data, readPosition, xorKey)[..i]
      {
        var offset := SizeT(i + readPosition);
        var index := offset % keySize;
        WrappedOffset(i, readPosition);
        XorPrefix(out, data, i, readPosition, xorKey);
        out := out[i := XorByte(out[i], xorKey[index])];
      }
      XorAtBits(data, readPosition, xorKey);
      ok := true;
    }

    method ReadData(bytes: nat) returns (r: Result<seq<byte>>)
      requires Configured()
      modifies this, m_fileReader
      ensures (State(), r) == ReadStep(m_fileReader.contents, KeyOf(), old(State()), bytes)
      ensures old(Ready()) ==> Agrees(Take(FileView(), old(m_readPosition), bytes), r)
    {
      if bytes == 0 {
        return Ok([]);
      }
      var preReadPosition := m_fileReader.GetReadPosition();
      var readResult, out := m_fileReader.ReadBytes(bytes, []);
      if !readResult {
        return Err(FileReadingFailure);
      }
      m_readPosition := m_fileReader.GetReadPosition();
      if m_doXorObfuscation {
        XorOfSlice(m_fileReader.contents, xorKey, preReadPosition, preReadPosition + bytes);
        var obfuscationResult, plain := XorObfuscation(preReadPosition, out);
        if !obfuscationResult {
          assert false;
        }
        out := plain;
      }
      return Ok(out);
    }

    /** readDataUint16, readDataUint32 and readDataUint64 are this for 2, 4 and 8 bytes. */
    method ReadDataUint(outBytes: nat) returns (r: Result<nat>)
      requires Ready()
      modifies this, m_fileReader
      ensures Agrees(UintAt(FileView(), old(m_readPosition), outBytes), r)
    {
      var buffer :- ReadData(outBytes);
      var convertResult, out := LeUint8ToUint(buffer, outBytes);
      if !convertResult {
        assert false;
      }
      return Ok(out);
    }

    method ReadDataInt32() returns (r: Result<int>)
      requires Ready()
      modifies this, m_fileReader
      ensures Agrees(Int32At(FileView(), old(m_readPosition)), r)
    {
      var buffer :- ReadData(4);
      var convertResult, out := LeUint8ToInt32(buffer);
      if !convertResult {
        assert false;
      }
      return Ok(out);
    }

    method ReadDataArray32() returns (r: Result<seq<byte>>)
      requires Ready()
      modifies this, m_fileReader
      ensures Agrees(Array32At(FileView(), old(m_readPosition)), r)
    {
      var buffer :- ReadData(32);
      if |buffer| < 32 {
        assert false;
      }
      return Ok(Reverse(buffer));
    }

    method ReadDataCompactSizeFrom(firstByte: byte) returns (r: Result<nat>)
      requires Ready()
      modifies this, m_fileReader
      ensures Agrees(CompactTailAt(FileView(), old(m_readPosition), firstByte), r)
    {
      if firstByte < 0xFD {
        return Ok(firstByte);
      }
      match firstByte
      case 0xFD => r := ReadDataUint(2);
      case 0xFE => r := ReadDataUint(4);
      case _ => r := ReadDataUint(8);
    }

    method ReadDataCompactSize() returns (r: Result<nat>)
      requires Ready()
      modifies this, m_fileReader
      ensures Agrees(CompactAt(FileView(), old(m_readPosition)), r)
    {
      var buffer :- ReadData(1);
      r := ReadDataCompactSizeFrom(buffer[0]);
    }

    function GetReadPosition(): nat
      reads this
    {
      m_readPosition
    }

    method SetReadPosition(newPos: nat) returns (ok: bool)
      modifies this, m_fileReader
      ensures (State(), ok) == SeekStep(old(State()), newPos)
      ensures old(Ready()) && newPos <= |m_fileReader.contents| ==> ok && Ready() && m_readPosition == newPos
    {
      var setPosResult := m_fileReader.SetReadPosition(newPos);
      if !setPosResult {
        return false;
      }
      m_readPosition := newPos;
      return true;
    }

    method IsEof() returns (eof: bool)
      modifies this, m_fileReader
      ensures (State(), eof) == EofStep(m_fileReader.contents, old(State()))
      ensures old(Ready()) ==> (eof <==> m_readPosition == |m_fileReader.contents|)
      ensures old(Ready()) && !eof ==> Ready()
      ensures m_readPosition == old(m_readPosition)
    {
      eof := m_fileReader.IsEof();
    }

    function GetFileSize(): nat { m_fileReader.GetFileSize() }
  }
}
