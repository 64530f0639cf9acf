/** The 64-byte stream buffer of src/other/HashStreamBuffer.hpp in front of CSHA256. */
module HashStream {
  import opened ByteTypes
  import opened ShaSpec
  import opened Hasher

  class HashStreamBuffer {
    const buffer: array<byte>
    const digestBytes: array<byte>
    const hasher: CSHA256
    /** pptr() - pbase(). */
    var pptr: nat
    var valid: bool
    var writeCount: nat
    /** The bytes of the message written so far. */
    ghost var message: seq<byte>

    ghost predicate Valid()
      reads this, buffer, digestBytes, hasher, hasher.s, hasher.buf
    {
      && Stored()
      && Counted(writeCount, |message|)
      && (valid ==> pptr == 0 && digestBytes[..] == Sha256(Sha256(message)))
      && (!valid ==> hasher.written + buffer[..pptr] == message)
    }

    ghost predicate Stored()
      reads this, buffer, digestBytes, hasher, hasher.s, hasher.buf
    {
      && hasher.Valid()
      && buffer.Length == 64 && digestBytes.Length == 32
      && buffer != digestBytes && buffer != hasher.buf && digestBytes != hasher.buf
      && pptr < 64
    }

    constructor ()
      ensures Valid() && message == [] && !valid
      ensures fresh(buffer) && fresh(digestBytes) && fresh(hasher) && fresh(hasher.s) && fresh(hasher.buf)
    {
      hide Sha256, CSHA256.Valid;
      buffer := new byte[64];
      digestBytes := new byte[32](i => 0);
      hasher := new CSHA256();
      pptr := 0;
      valid := false;
      writeCount := 0;
      message := [];
    }

    /** Hand the put area to the hasher. */
    method Sync()
      requires Valid()
      modifies this, hasher, hasher.s, hasher.buf
      ensures Valid() && message == old(message) && valid == old(valid) && pptr == 0
    {
      hide Sha256, CSHA256.Valid;
      if pptr == 0 {
        return;
      }
      hasher.Write(buffer, 0, pptr);
      pptr := 0;
    }

    /** memcpy(pptr(), data, n) and pbump(n). */
    method Put(data: array<byte>, from: nat, n: nat)
      requires Stored() && from + n <= data.Length && n < 64 - pptr
      requires data != buffer && data != hasher.buf && data != digestBytes
      modifies this`pptr, buffer
      ensures Stored() && hasher.written + buffer[..pptr] == old(hasher.written + buffer[..pptr] + data[from..from + n])
    {
      hide Sha256, CSHA256.Valid;
      ghost var kept := buffer[..pptr];
      forall i | 0 <= i < n {
        buffer[pptr + i] := data[from + i];
      }
      pptr := pptr + n;
      assert buffer[..pptr] == kept + data[from..from + n];
    }

    /** Fill the rest of the buffer and hash it. */
    method PutAndHash(data: array<byte>, from: nat)
      requires Stored() && from + (64 - pptr) <= data.Length
      requires data != buffer && data != hasher.buf && data != digestBytes
      modifies this`pptr, buffer, hasher, hasher.s, hasher.buf
      ensures Stored() && pptr == 0
      ensures hasher.written == old(hasher.written + buffer[..pptr] + data[from..from + (64 - pptr)])
    {
      hide Sha256, CSHA256.Valid;
      ghost var kept := buffer[..pptr];
      forall i | 0 <= i < 64 - pptr {
        buffer[pptr + i] := data[from + i];
      }
      assert buffer[0..64] == kept + data[from..from + (64 - pptr)];
      hasher.Write(buffer, 0, 64);
      pptr := 0;
    }

    /** However much is written: a piece in the buffer, or a buffer full, and perhaps the rest past it. */
    method PutAll(data: array<byte>, from: nat, size: nat)
      requires Stored() && from + size <= data.Length
      requires data != buffer && data != hasher.buf && data != digestBytes
      modifies this`pptr, buffer, hasher, hasher.s, hasher.buf
      ensures Stored() && hasher.written + buffer[..pptr] ==
        old(hasher.written + buffer[..pptr] + data[from..from + size])
    {
      hide CSHA256.Valid;
      var space := 64 - pptr;
      if size < space {
        Put(data, from, size);
        return;
      }
      ghost var w, d := hasher.written + buffer[..pptr], data[..];
      assert data[from..from + space] == d[from..from + space];
      PutAndHash(data, from);
      assert data[..] == d;
      assert buffer[..0] == [];
      var remain := size - space;
      Glue(w, d, from, from + space, from + size);
      assert data[from + space..from + size] == d[from + space..from + size];
      if remain < 64 {
        Put(data, from + space, remain);
        return;
      }
      hasher.Write(data, from + space, remain);
      assert data[..] == d;
      assert buffer[..0] == [];
    }

    /** After a digest the next write begins a new message. */
    method Xsputn(data: array<byte>, from: nat, size: nat) returns (r: nat)
      requires Valid() && from + size <= data.Length
      requires data != buffer && data != hasher.buf && data != digestBytes
      modifies this, buffer, hasher, hasher.s, hasher.buf
      ensures Valid() && !valid && r == size
      ensures message == (if old(valid) then [] else old(message)) + old(data[from..from + size])
    {
      hide Sha256, CSHA256.Valid, Counted;
      ghost var d := data[from..from + size];
      if valid {
        StartOver();
        assert data[from..from + size] == d;
      }
      CountAdd(writeCount, |message|, size);
      PutAll(data, from, size);
      message := message + d;
      writeCount := (writeCount + size) % WRAP;
      r := size;
    }

    method StartOver()
      requires Valid() && valid
      modifies this, hasher, hasher.s, hasher.buf
      ensures Valid() && !valid && message == []
    {
      hide Sha256, CSHA256.Valid;
      hasher.Reset();
      writeCount := 0;
      valid := false;
      message := [];
      assert buffer[..0] == [];
    }

    method Digest() returns (digest: array<byte>)
      requires Valid()
      modifies this, digestBytes, hasher, hasher.s, hasher.buf
      ensures Valid() && valid && message == old(message)
      ensures digest == digestBytes && digest[..] == Sha256(Sha256(message))
    {
      hide Sha256, CSHA256.Valid, Padded;
      if !valid {
        Sync();
        assert hasher.written == message by {
          assert buffer[..0] == [];
        }
        hasher.Finalize(digestBytes, 0);
        ghost var h := digestBytes[0..32];
        hasher.Reset();
        assert digestBytes[0..32] == h;
        hasher.Write(digestBytes, 0, 32);
        hasher.Finalize(digestBytes, 0);
        assert digestBytes[..] == digestBytes[0..32];
        valid := true;
      }
      return digestBytes;
    }
  }
}
