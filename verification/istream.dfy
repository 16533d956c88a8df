/** Input streams over a memory buffer: `pos` stands for the `state` pointer. */
module InputStream {
  import opened Wire
  import opened Descriptor
  import opened Decoding

  class IStream {
    const buf: seq<byte>
    var pos: nat
    var bytesLeft: nat

    ghost predicate Valid()
      reads this
    {
      pos + bytesLeft <= |buf|
    }

    /** The end of the window this stream may read. */
    ghost function End(): nat
      reads this
    {
      pos + bytesLeft
    }

    /** The bytes the stream may still read. */
    ghost function Rest(): (s: seq<byte>)
      requires Valid()
      reads this
      ensures |s| == bytesLeft
    {
      buf[pos..pos + bytesLeft]
    }

    /** pb_istream_from_buffer */
    constructor (buf: seq<byte>)
      ensures Valid() && this.buf == buf && pos == 0 && bytesLeft == |buf| && Rest() == buf
    {
      this.buf := buf;
      pos := 0;
      bytesLeft := |buf|;
    }

    /** `*substream = *stream`, with its own limit. */
    constructor Sub(parent: IStream, size: nat)
      requires parent.Valid() && size <= parent.bytesLeft
      ensures Valid() && buf == parent.buf && pos == parent.pos && bytesLeft == size
      ensures Rest() == parent.Rest()[..size]
    {
      buf := parent.buf;
      pos := parent.pos;
      bytesLeft := size;
    }

    /** pb_read. A null destination only skips. */
    method Read(count: nat) returns (ok: bool, data: seq<byte>)
      requires Valid()
      modifies this
      ensures Valid() && End() == old(End())
      ensures ok <==> count <= old(bytesLeft)
      ensures ok ==> data == old(Rest())[..count] && Rest() == old(Rest())[count..]
      ensures !ok ==> pos == old(pos)
    {
      if count == 0 {
        return true, [];
      }
      if bytesLeft < count {
        return false, [];
      }
      data := buf[pos..pos + count];
      pos := pos + count;
      bytesLeft := bytesLeft - count;
      ok := true;
    }

    /** pb_readbyte */
    method ReadByte() returns (ok: bool, b: byte)
      requires Valid()
      modifies this
      ensures Valid() && End() == old(End())
      ensures ok <==> old(bytesLeft) > 0
      ensures ok ==> b == old(Rest())[0] && Rest() == old(Rest())[1..]
      ensures !ok ==> pos == old(pos)
    {
      if bytesLeft == 0 {
        return false, 0;
      }
      b := buf[pos];
      pos := pos + 1;
      bytesLeft := bytesLeft - 1;
      ok := true;
    }

    /** pb_decode_varint32_eof */
    method DecodeVarint32() returns (ok: bool, value: nat, eof: bool)
      requires Valid()
      modifies this
      ensures Valid() && End() == old(End())
      ensures var r := Varint32(old(Rest()));
        ok == r.Got? && (ok ==> value == r.v && Rest() == r.rest)
      ensures eof <==> old(bytesLeft) == 0
    {
      hide Or, Shl;
      ghost var s := Rest();
      value, eof := 0, false;
      var b;
      ok, b := ReadByte();
      if !ok {
        return false, 0, true;
      }
      if b < 128 {
        return true, b, false;
      }
      var bitpos: nat := 7;
      var result: nat := b % 128;
      while true
        invariant Valid() && End() == old(End())
        invariant Varint32(s) == Varint32From(Rest(), bitpos, result)
        decreases bytesLeft
      {
        ok, b := ReadByte();
        if !ok {
          return;
        }
        if bitpos >= 32 {
          var signExtension := if bitpos < 63 then 0xFF else 0x01;
          if b % 128 != 0 && (result < TWO31 || b != signExtension) {
            return false, 0, false;
          }
        } else {
          result := Or(result, Shl(b % 128, bitpos, TWO32));
        }
        bitpos := (bitpos + 7) % 256;
        if b < 128 {
          break;
        }
      }
      if bitpos == 35 && (b / 16) % 8 != 0 {
        return false, 0, false;
      }
      return true, result, false;
    }

    /** pb_decode_varint */
    method DecodeVarint() returns (ok: bool, value: nat)
      requires Valid()
      modifies this
      ensures Valid() && End() == old(End())
      ensures var r := Varint64(old(Rest()));
        ok == r.Got? && (ok ==> value == r.v && Rest() == r.rest)
    {
      hide Or, Shl;
      ghost var s := Rest();
      var bitpos: nat := 0;
      value := 0;
      while true
        invariant Valid() && End() == old(End())
        invariant Varint64(s) == Varint64From(Rest(), bitpos, value)
        decreases bytesLeft
      {
        if bitpos >= 64 {
          return false, 0;
        }
        var b;
        ok, b := ReadByte();
        if !ok {
          return;
        }
        value := Or(value, Shl(b % 128, bitpos, TWO64));
        bitpos := bitpos + 7;
        if b < 128 {
          return true, value;
        }
      }
    }

    /** pb_skip_varint */
    method SkipVarint() returns (ok: bool)
      requires Valid()
      modifies this
      ensures Valid() && End() == old(End())
      ensures var r := Decoding.SkipVarint(old(Rest())); ok == r.Got? && (ok ==> Rest() == r.rest)
    {
      ghost var s := Rest();
      while true
        invariant Valid() && End() == old(End())
        invariant Decoding.SkipVarint(s) == Decoding.SkipVarint(Rest())
        decreases bytesLeft
      {
        var data;
        ok, data := Read(1);
        if !ok || data[0] < 128 {
          return;
        }
      }
    }

    /** pb_make_string_substream. The parent's position stays in front of the window until
        the substream is closed. */
    method MakeSubstream() returns (ok: bool, sub: IStream)
      requires Valid()
      modifies this
      ensures Valid() && sub.Valid() && fresh(sub)
      ensures End() <= old(End())
      ensures var w := Window(old(Rest()));
        && ok == w.Got?
        && (ok ==> sub.buf == buf && sub.Rest() == w.v && bytesLeft == |w.rest|
                   && sub.End() + bytesLeft == old(End())
                   && buf[sub.End()..old(End())] == w.rest
                   && bytesLeft + sub.bytesLeft < old(bytesLeft))
    {
      hide Varint32;
      ghost var s := Rest();
      var size, eof;
      sub := new IStream(buf);
      ok, size, eof := DecodeVarint32();
      if !ok {
        return;
      }
      if bytesLeft < size {
        return false, sub;
      }
      sub := new IStream.Sub(this, size);
      bytesLeft := bytesLeft - size;
    }

    /** pb_close_string_substream: whatever the substream left is skipped. */
    method CloseSubstream(sub: IStream) returns (ok: bool)
      requires Valid() && sub.Valid() && sub != this && sub.buf == buf && sub.End() + bytesLeft <= |buf|
      modifies this, sub
      ensures ok && Valid() && bytesLeft == old(bytesLeft) && pos == old(sub.End())
    {
      if sub.bytesLeft != 0 {
        var data;
        ok, data := sub.Read(sub.bytesLeft);
        if !ok {
          return;
        }
      }
      pos := sub.pos;
      ok := true;
    }

    /** pb_skip_string */
    method SkipString() returns (ok: bool)
      requires Valid()
      modifies this
      ensures Valid() && End() == old(End())
      ensures var w := Window(old(Rest())); ok == w.Got? && (ok ==> Rest() == w.rest)
    {
      hide Varint32;
      var size, eof, data;
      ok, size, eof := DecodeVarint32();
      if ok {
        ok, data := Read(size);
      }
    }

    /** pb_decode_tag */
    method DecodeTag() returns (ok: bool, tag: nat, wireType: nat, eof: bool)
      requires Valid()
      modifies this
      ensures Valid() && End() == old(End())
      ensures var k := ReadKey(old(Rest()));
        && ok == k.KeyGot?
        && (!ok ==> eof == (k.KeyEnd? || old(bytesLeft) == 0))
        && (ok ==> tag == k.tag && wireType == k.wt)
        && (!k.KeyFail? ==> Rest() == k.rest)
    {
      hide Varint32;
      var key;
      tag, wireType := 0, 0;
      ok, key, eof := DecodeVarint32();
      if !ok {
        return;
      }
      if key == 0 {
        return false, 0, 0, true;
      }
      return true, key / 8, key % 8, false;
    }

    /** pb_skip_field */
    method SkipField(wireType: nat) returns (ok: bool)
      requires Valid()
      modifies this
      ensures Valid() && End() == old(End())
      ensures var r := Decoding.SkipField(wireType, old(Rest())); ok == r.Got? && (ok ==> Rest() == r.rest)
    {
      hide Window, Decoding.SkipVarint;
      var data;
      if wireType == 0 {
        ok := SkipVarint();
      } else if wireType == 1 {
        ok, data := Read(8);
      } else if wireType == 2 {
        ok := SkipString();
      } else if wireType == 5 {
        ok, data := Read(4);
      } else {
        ok := false;
      }
    }
  }
}
