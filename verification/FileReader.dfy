/** The input file stream and the thin wrapper the parsers read through. */
module FileReader {
  import opened Common

  const MAX_OFFSET: nat := 0x7FFF_FFFF_FFFF_FFFF
  const SIZE_MAX: nat := 0xFFFF_FFFF_FFFF_FFFF

  /** size_t: what is left of a sum. */
  function SizeT(x: nat): nat { x % (SIZE_MAX + 1) }

  /** File contents; a file offset is a signed 64-bit number. */
  type Contents = c: seq<byte> | |c| <= MAX_OFFSET witness []

  /** The state of a std::ifstream over fixed contents. */
  datatype Stream = Stream(pos: nat, failbit: bool, eofbit: bool) {
    predicate Good() { !failbit && !eofbit }

    /** istream::read: the bytes delivered; a short delivery sets both flags. */
    function Read(c: Contents, count: nat): (Stream, seq<byte>) {
      if !Good() then (this.(failbit := true), [])
      else if pos + count <= |c| then (this.(pos := pos + count), c[pos..pos + count])
      else (Stream(|c|, true, true), if pos <= |c| then c[pos..] else [])
    }

    /** istream::peek: whether it returned EOF. */
    function Peek(c: Contents): (Stream, bool) {
      if !Good() then (this.(failbit := true), true)
      else if pos < |c| then (this, false)
      else (this.(eofbit := true), true)
    }

    /** istream::tellg converted to size_t, where -1 becomes the largest value. */
    function Tell(): (Stream, nat) {
      if !Good() then (this.(failbit := true), SIZE_MAX) else (this, pos)
    }

    /** istream::seekg, which clears the end-of-file flag first and fails on a negative offset. */
    function Seek(position: nat): (Stream, bool) {
      if failbit then (this.(eofbit := false), false)
      else if position > MAX_OFFSET then (Stream(pos, true, false), false)
      else (Stream(position, false, false), true)
    }
  }

  class FileReader {
    const contents: Contents
    var m_file: Stream

    constructor (contents: Contents)
      ensures this.contents == contents && m_file == Stream(0, false, false)
    {
      this.contents := contents;
      m_file := Stream(0, false, false);
    }

    /** A successful read delivers exactly the requested bytes: the branch that shortens the buffer
        at the end of the file cannot be reached. */
    method ReadBytes(bytes: nat, buffer: seq<byte>) returns (ok: bool, out: seq<byte>)
      modifies this
      ensures bytes == 0 ==> ok && out == buffer && m_file == old(m_file)
      ensures bytes > 0 ==> m_file == old(m_file).Read(contents, bytes).0
      ensures bytes > 0 ==> (ok <==> old(m_file).Good() && old(m_file).pos + bytes <= |contents|)
      ensures bytes > 0 ==> (ok <==> m_file.Good())
      ensures bytes > 0 && ok ==> out == contents[old(m_file).pos..old(m_file).pos + bytes]
    {
      ok, out := true, buffer;
      if bytes == 0 {
        return;
      }
      var (next, got) := m_file.Read(contents, bytes);
      m_file := next;
      if !m_file.Good() {
        ok := false;
        return;
      }
      out := got;
      var actualRead := |got|;
      if actualRead != bytes {
        assert false;
      }
    }

    method IsEof() returns (r: bool)
      modifies this
      ensures (m_file, r) == old(m_file).Peek(contents)
    {
      var isEof := m_file.eofbit;
      var (next, isNextEof) := m_file.Peek(contents);
      m_file := next;
      r := isEof || isNextEof;
    }

    method SetReadPosition(position: nat) returns (ok: bool)
      modifies this
      ensures (m_file, ok) == old(m_file).Seek(position)
    {
      var (next, sought) := m_file.Seek(position);
      m_file := next;
      ok := sought;
    }

    method GetReadPosition() returns (position: nat)
      modifies this
      ensures (m_file, position) == old(m_file).Tell()
    {
      var (next, told) := m_file.Tell();
      m_file := next;
      position := told;
    }

    function GetFileSize(): nat { |contents| }
  }
}
