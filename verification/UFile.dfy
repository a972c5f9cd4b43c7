/** The file abstraction under the decoders: a fixed byte sequence and a read position. */
module UFiles {
  import opened Bytes

  class UFile {
    const contents: seq<byte>
    /** Offset of the archive in the file: 0, or 128 behind a MacBinary header. */
    const base: nat
    /** The `length` field, which `uf_open` sets to the length of the whole file. */
    const length: int
    /** Absolute read position. */
    var off: nat

    constructor (contents: seq<byte>, base: nat, length: int, off: nat)
      ensures this.contents == contents && this.base == base && this.length == length && this.off == off
    {
      this.contents, this.base, this.length, this.off := contents, base, length, off;
    }

    /** The bytes still to be read. */
    ghost function Remaining(): seq<byte>
      reads this
    {
      if off <= |contents| then contents[off..] else []
    }

    /** `uf_tell` */
    method Tell() returns (t: int)
      ensures t == off - base
    {
      t := off - base;
    }

    /** `uf_read8`: the next byte, or 0 at the end of the file. */
    method Read8() returns (b: byte)
      modifies this
      ensures b == ByteAt(old(Remaining()), 0)
      ensures off == old(off) + Min(1, |old(Remaining())|)
    {
      if off < |contents| {
        b := contents[off];
        off := off + 1;
      } else {
        b := 0;
      }
    }

    /** `uf_read`: up to `count` bytes into the front of `buf`; 0 when all of them were there. */
    method Read(buf: array<byte>, count: nat) returns (r: int)
      requires count <= buf.Length
      modifies this, buf
      ensures var got := Min(count, |old(Remaining())|);
              && off == old(off) + got
              && buf[..got] == old(Remaining())[..got]
              && buf[got..] == old(buf[got..])
              && (r == 0 <==> got == count)
      ensures r == 0 || r == -1
    {
      var n := 0;
      ghost var rest := Remaining();
      while n < count && off < |contents|
        invariant 0 <= n <= count && n <= |rest| && off == old(off) + n
        invariant buf[..n] == rest[..n]
        invariant buf[n..] == old(buf[n..])
      {
        buf[n] := contents[off];
        assert buf[..n + 1] == buf[..n] + [contents[off]];
        assert rest[..n + 1] == rest[..n] + [contents[off]];
        off := off + 1;
        n := n + 1;
      }
      r := if n == count then 0 else -1;
    }
  }
}
