/** Output streams over a memory buffer, and sizing streams that only count. */
module OutputStream {
  import opened Options
  import opened Wire
  import opened VarintLaws
  import opened Descriptor
  import opened Encoding

  datatype Err = NoError | StreamFull | SizeChanged | BadValue

  /** Contract of everything that writes: `e` is what should come out. A sizing stream counts
      it modulo the range of size_t; a real one takes it exactly when it fits. */
  predicate Emits(ok: bool, e: Option<seq<byte>>, sizing: bool, maxSize: nat,
                  before: nat, after: nat, out: seq<byte>, out': seq<byte>) {
    if sizing then ok == e.Some? && (ok ==> after == (before + |e.value|) % SIZE_MOD)
    else
      && ok == (e.Some? && before + |e.value| <= maxSize)
      && (ok ==> after == before + |e.value| && out' == out + e.value)
  }

  /** Writing one thing after another. */
  lemma {:induction false} EmitsThen(e1: Option<seq<byte>>, e2: Option<seq<byte>>, ok2: bool, sizing: bool,
      maxSize: nat,
                                     n0: nat, n1: nat, n2: nat, out0: seq<byte>, out1: seq<byte>, out2: seq<byte>)
    requires Emits(true, e1, sizing, maxSize, n0, n1, out0, out1)
    requires Emits(ok2, e2, sizing, maxSize, n1, n2, out1, out2)
    ensures Emits(ok2, Cat(e1, e2), sizing, maxSize, n0, n2, out0, out2)
  {
    if ok2 {
      assert out0 + e1.value + e2.value == out0 + (e1.value + e2.value);
      if sizing { ModAdd(n0 + |e1.value|, |e2.value|); }
    }
  }

  lemma {:induction false} ModAdd(a: nat, b: nat)
    ensures (a % SIZE_MOD + b) % SIZE_MOD == (a + b) % SIZE_MOD
  {
    var q := a / SIZE_MOD;
    assert a + b == (a % SIZE_MOD + b) + q * SIZE_MOD;
  }

  /** What fails stays failed when more was to follow. */
  lemma {:induction false} EmitsStop(e1: Option<seq<byte>>, e2: Option<seq<byte>>, sizing: bool, maxSize: nat,
                                     n0: nat, n1: nat, out0: seq<byte>, out1: seq<byte>)
    requires Emits(false, e1, sizing, maxSize, n0, n1, out0, out1)
    ensures Emits(false, Cat(e1, e2), sizing, maxSize, n0, n1, out0, out1)
  {
  }

  class OStream {
    const buf: array<byte>
    const sizing: bool
    var state: nat
    var maxSize: nat
    var bytesWritten: nat
    var errmsg: Err

    /** No C object is larger than half the address space. */
    ghost predicate Valid()
      reads this
    {
      && maxSize <= TWO63 && bytesWritten < SIZE_MOD
      && state <= buf.Length
      && (!sizing ==> bytesWritten <= maxSize && state + (maxSize - bytesWritten) <= buf.Length)
    }

    ghost function Output(): seq<byte>
      requires state <= buf.Length
      reads this, buf
    {
      buf[..state]
    }

    /** pb_ostream_from_buffer */
    constructor (buf: array<byte>, maxSize: nat)
      requires maxSize <= buf.Length && maxSize <= TWO63
      ensures Valid() && this.buf == buf && !sizing && this.maxSize == maxSize
      ensures bytesWritten == 0 && state == 0 && errmsg == NoError
    {
      this.buf, this.maxSize, sizing := buf, maxSize, false;
      state, bytesWritten, errmsg := 0, 0, NoError;
    }

    /** PB_OSTREAM_SIZING. The buffer is not used. */
    constructor Sizing(buf: array<byte>)
      ensures Valid() && this.buf == buf && sizing
      ensures bytesWritten == 0 && state == 0 && errmsg == NoError && maxSize == 0
    {
      this.buf, maxSize, sizing := buf, 0, true;
      state, bytesWritten, errmsg := 0, 0, NoError;
    }

    /** The substream of pb_encode_submessage, which starts where its parent stands. */
    constructor Sub(parent: OStream, size: nat)
      requires parent.Valid() && !parent.sizing && parent.bytesWritten + size <= parent.maxSize
      ensures Valid() && buf == parent.buf && !sizing && maxSize == size
      ensures bytesWritten == 0 && state == parent.state && errmsg == NoError
    {
      buf, maxSize, sizing := parent.buf, size, false;
      state, bytesWritten, errmsg := parent.state, 0, NoError;
    }

    method SetError(e: Err)
      modifies this`errmsg
      ensures errmsg == if old(errmsg) == NoError then e else old(errmsg)
    {
      if errmsg == NoError {
        errmsg := e;
      }
    }

    /** buf_write */
    method BufWrite(data: seq<byte>)
      requires state + |data| <= buf.Length
      modifies this`state, buf
      ensures state == old(state) + |data| && Output() == old(Output()) + data
    {
      var i := 0;
      while i < |data|
        invariant 0 <= i <= |data|
        invariant buf[..state] == old(buf[..state])
        invariant buf[state..state + i] == data[..i]
        modifies buf
      {
        buf[state + i] := data[i];
        i := i + 1;
      }
      assert buf[..state + i] == buf[..state] + buf[state..state + i];
      state := state + |data|;
    }

    /** pb_write. A sizing stream is given only the count. */
    method Write(data: seq<byte>, count: nat) returns (ok: bool)
      requires Valid() && count < SIZE_MOD && (!sizing ==> |data| == count)
      modifies this, buf
      ensures Valid() && maxSize == old(maxSize)
      ensures sizing ==> ok && bytesWritten == (old(bytesWritten) + count) % SIZE_MOD && errmsg == old(errmsg)
      ensures !sizing ==> Emits(ok, Some(data), false, maxSize, old(bytesWritten), bytesWritten, old(Output()),
          Output())
      ensures errmsg == SizeChanged ==> old(errmsg) == SizeChanged
    {
      if count > 0 && !sizing {
        var total := (bytesWritten + count) % SIZE_MOD;
        if total < bytesWritten || total > maxSize {
          SetError(StreamFull);
          return false;
        }
        BufWrite(data);
      }
      bytesWritten := (bytesWritten + count) % SIZE_MOD;
      ok := true;
    }

    /** A write whose bytes are at hand in both modes. */
    method WriteBytes(data: seq<byte>) returns (ok: bool)
      requires Valid() && |data| < SIZE_MOD
      modifies this, buf
      ensures Valid() && maxSize == old(maxSize)
      ensures Emits(ok, Some(data), sizing, maxSize, old(bytesWritten), bytesWritten, old(Output()), Output())
      ensures errmsg == SizeChanged ==> old(errmsg) == SizeChanged
    {
      ok := Write(data, |data|);
    }

    /** pb_encode_varint */
    method WriteVarint(value: nat) returns (ok: bool)
      requires Valid() && value < TWO64
      modifies this, buf
      ensures Valid() && maxSize == old(maxSize)
      ensures Emits(ok, Some(EncodeVarint(value)), sizing, maxSize, old(bytesWritten), bytesWritten, old(Output()),
          Output())
      ensures errmsg == SizeChanged ==> old(errmsg) == SizeChanged
    {
      hide Emits;
      if value <= 0x7F {
        ok := WriteBytes([value]);
        return;
      }
      var bytes := VarintBytes(value);
      ok := WriteBytes(bytes);
    }
  }

  /** The groups of a varint, collected in a ten-byte buffer. Each is first stored with its
      continuation bit; the last one loses it again. */
  method VarintBytes(value: nat) returns (bytes: seq<byte>)
    requires 127 < value < TWO64
    ensures bytes == EncodeVarint(value) && |bytes| <= 10
  {
    EncodedLength64(value);
    var buffer := new byte[10];
    var v: nat := value;
    var i := 0;
    while v > 0
      invariant 0 <= i <= 10
      invariant v > 0 ==> EncodeVarint(value) == buffer[..i] + EncodeVarint(v)
      invariant v == 0 ==> i > 0 && buffer[i - 1] >= 128
      invariant v == 0 ==> EncodeVarint(value) == buffer[..i - 1] + [buffer[i - 1] - 128]
      decreases v
    {
      ghost var prefix := buffer[..i];
      assert |EncodeVarint(value)| == i + |EncodeVarint(v)|;
      buffer[i] := v % 128 + 128;
      assert buffer[..i + 1] == prefix + [v % 128 + 128];
      if v > 127 {
        assert prefix + ([v % 128 + 128] + EncodeVarint(v / 128)) == buffer[..i + 1] + EncodeVarint(v / 128);
      } else {
        assert buffer[..i] == prefix;
      }
      v := v / 128;
      i := i + 1;
    }
    buffer[i - 1] := buffer[i - 1] - 128;
    bytes := buffer[..i];
  }
}
