/** The parts of Go's bytes.Buffer that markdownify uses, with the standard
    library's bookkeeping of the last read: an unread is honoured only right
    after a read, and a read at the end of the data empties the buffer. */
module Bytes {
  import opened Runes

  /** bytes.Buffer's readOp: what the last operation was, so that UnreadByte
      and UnreadRune know whether (and how far) they may step back. */
  datatype ReadOp = OpInvalid | OpRead | OpReadRune(size: nat)

  class Buffer {
    /** The data; the unread part is buf[off..]. */
    var buf: seq<Byte>
    var off: nat
    var lastRead: ReadOp

    ghost predicate Valid()
      reads this
    {
      off <= |buf|
    }

    /** The unread part, as Buffer.Bytes and Buffer.String return it. */
    function Unread(): (u: seq<Byte>)
      reads this
      requires Valid()
      ensures |u| == |buf| - off
    {
      buf[off..]
    }

    /** bytes.NewBuffer(contents); `new(bytes.Buffer)` is the empty case. */
    constructor (contents: seq<Byte>)
      ensures Valid()
      ensures buf == contents && off == 0 && lastRead == OpInvalid
    {
      buf := contents;
      off := 0;
      lastRead := OpInvalid;
    }

    /** Buffer.Reset: drop all data. */
    method Reset()
      modifies this
      ensures Valid()
      ensures buf == [] && off == 0 && lastRead == OpInvalid
    {
      buf := buf[..0];
      off := 0;
      lastRead := OpInvalid;
    }

    /** Buffer.ReadByte: the next unread byte, or (0, io.EOF) after emptying
        the buffer when nothing is left. */
    method ReadByte() returns (c: Byte, ok: bool)
      requires Valid()
      modifies this
      ensures Valid()
      ensures ok == (old(off) < |old(buf)|)
      ensures ok ==> c == old(buf)[old(off)] && buf == old(buf) && off == old(off) + 1 && lastRead == OpRead
      ensures !ok ==> c == 0 && buf == [] && off == 0 && lastRead == OpInvalid
    {
      if |buf| <= off {
        Reset();
        return 0, false;
      }
      c := buf[off];
      off := off + 1;
      lastRead := OpRead;
      ok := true;
    }

    /** Buffer.UnreadByte: steps back one byte, but only when the previous
        operation was a successful read; otherwise it fails and changes nothing. */
    method UnreadByte() returns (ok: bool)
      requires Valid()
      modifies this
      ensures Valid()
      ensures ok == (old(lastRead) != OpInvalid)
      ensures buf == old(buf) && lastRead == OpInvalid
      ensures off == if ok && old(off) > 0 then old(off) - 1 else old(off)
    {
      if lastRead == OpInvalid {
        return false;
      }
      lastRead := OpInvalid;
      if off > 0 {
        off := off - 1;
      }
      ok := true;
    }

    /** Buffer.ReadRune: decodes the next UTF-8 rune, or reports io.EOF after
        emptying the buffer when nothing is left. */
    method ReadRune() returns (r: int, size: nat, ok: bool)
      requires Valid()
      modifies this
      ensures Valid()
      ensures ok == (old(off) < |old(buf)|)
      ensures ok ==> var d := DecodeRune(old(buf)[old(off)..]);
                     r == d.rune && size == d.size && buf == old(buf)
                     && off == old(off) + size && lastRead == OpReadRune(size)
      ensures !ok ==> buf == [] && off == 0 && lastRead == OpInvalid
    {
      if |buf| <= off {
        Reset();
        return 0, 0, false;
      }
      var c := buf[off];
      if c < 0x80 {
        off := off + 1;
        lastRead := OpReadRune(1);
        return c, 1, true;
      }
      var d := DecodeRune(buf[off..]);
      r, size := d.rune, d.size;
      off := off + size;
      lastRead := OpReadRune(size);
      ok := true;
    }

    /** Buffer.UnreadRune: gives back the rune just read by ReadRune; after any
        other operation it fails and changes nothing. */
    method UnreadRune() returns (ok: bool)
      requires Valid()
      modifies this
      ensures Valid()
      ensures ok == old(lastRead).OpReadRune?
      ensures buf == old(buf)
      ensures ok ==> lastRead == OpInvalid
      ensures !ok ==> lastRead == old(lastRead)
      ensures off == if ok && old(off) >= old(lastRead).size then old(off) - old(lastRead).size else old(off)
    {
      if !lastRead.OpReadRune? {
        return false;
      }
      if off >= lastRead.size {
        off := off - lastRead.size;
      }
      lastRead := OpInvalid;
      ok := true;
    }

    /** Buffer.WriteByte: appends one byte; any write forgets the last read. */
    method WriteByte(c: Byte)
      requires Valid()
      modifies this
      ensures Valid()
      ensures buf == old(buf) + [c] && off == old(off) && lastRead == OpInvalid
    {
      lastRead := OpInvalid;
      buf := buf + [c];
    }

    /** Buffer.WriteString: appends the bytes of s. */
    method WriteString(s: seq<Byte>)
      requires Valid()
      modifies this
      ensures Valid()
      ensures buf == old(buf) + s && off == old(off) && lastRead == OpInvalid
    {
      lastRead := OpInvalid;
      buf := buf + s;
    }
  }
}
