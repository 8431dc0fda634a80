/** The kernel's reader and writer objects: a cursor over a buffer, moved by each call. */
module CborIo {
  import opened Bytes
  import opened Cbor

  /** A cursor read `got` and left the cursor at `pos`, as the function value `spec` says. */
  ghost predicate Agrees<T>(spec: Option<(T, nat)>, got: Option<T>, pos: nat) {
    if got.None? then spec.None? else spec == Some((got.value, pos))
  }

  /** `struct abk_cbor_reader`. After a failed read the position is unspecified: every caller gives up. */
  class Reader {
    const buf: seq<byte>
    var pos: nat

    constructor (buf: seq<byte>)
      ensures this.buf == buf && pos == 0
    {
      this.buf := buf;
      pos := 0;
    }

    method Argument(ai: nat) returns (r: Option<nat>)
      requires ai < 32 && 0 < pos <= |buf| && ai == buf[pos - 1] % 32
      modifies this`pos
      ensures old(pos) <= pos <= |buf|
      ensures r.None? ==> ReadHead(buf, old(pos) - 1).None?
      ensures r.Some? ==> WidthOf(ai).Some?
      ensures r.Some? ==>
        ReadHead(buf, old(pos) - 1) == Some((Head(buf[old(pos) - 1] / 32, WidthOf(ai).value, r.value), pos))
    {
      if ai <= 23 {
        return Some(ai);
      } else if ai == 24 {
        if pos + 1 > |buf| { return None; }
        var v := buf[pos];
        assert buf[pos..pos + 1] == [buf[pos]];
        assert BeValue([v]) == BeValue([]) * 256 + v;
        pos := pos + 1;
        return Some(v);
      } else if ai == 25 {
        if pos + 2 > |buf| { return None; }
        pos := pos + 2;
        return Some(BeValue(buf[pos - 2..pos]));
      } else if ai == 26 {
        if pos + 4 > |buf| { return None; }
        pos := pos + 4;
        return Some(BeValue(buf[pos - 4..pos]));
      } else if ai == 27 {
        if pos + 8 > |buf| { return None; }
        pos := pos + 8;
        return Some(BeValue(buf[pos - 8..pos]));
      } else {
        return None;
      }
    }

    method NextHead() returns (r: Option<Head>)
      modifies this`pos
      ensures Agrees(ReadHead(buf, old(pos)), r, pos)
      ensures r.Some? ==> r.value.Valid() && old(pos) < pos <= |buf|
    {
      if pos >= |buf| {
        return None;
      }
      var first := buf[pos];
      pos := pos + 1;
      var value := Argument(first % 32);
      if value.None? {
        return None;
      }
      var h := Head(first / 32, WidthOf(first % 32).value, value.value);
      ReadHeadExact(buf, old(pos), h, pos);
      return Some(h);
    }

    method NextInt() returns (r: Option<s64>)
      modifies this`pos
      ensures Agrees(ReadInt(buf, old(pos)), r, pos)
      ensures r.Some? ==> old(pos) < pos <= |buf|
    {
      var h := NextHead();
      if h.None? {
        return None;
      }
      return HeadInt(h.value);
    }

    method NextStr(major: nat) returns (r: Option<seq<byte>>)
      modifies this`pos
      ensures Agrees(ReadString(buf, old(pos), major), r, pos)
      ensures r.Some? ==> old(pos) < pos <= |buf|
    {
      var h := NextHead();
      if h.None? || h.value.major != major || pos + h.value.value > |buf| {
        return None;
      }
      pos := pos + h.value.value;
      return Some(buf[pos - h.value.value..pos]);
    }

    method NextCount(major: nat) returns (r: Option<nat>)
      modifies this`pos
      ensures Agrees(ReadCount(buf, old(pos), major), r, pos)
      ensures r.Some? ==> old(pos) < pos <= |buf|
    {
      var h := NextHead();
      if h.None? || h.value.major != major {
        return None;
      }
      return Some(h.value.value);
    }

    method NextBool() returns (r: Option<bool>)
      modifies this`pos
      ensures Agrees(ReadBool(buf, old(pos)), r, pos)
      ensures r.Some? ==> old(pos) < pos <= |buf|
    {
      var h := NextHead();
      if h.None? || h.value.major != 7 || (h.value.value != 20 && h.value.value != 21) {
        return None;
      }
      return Some(h.value.value == 21);
    }

    /** Step over one item; nested items are stepped over by recursive calls. */
    method SkipItem() returns (ok: bool)
      requires pos <= |buf|
      modifies this`pos
      ensures ok == Skip(buf, old(pos)).Some?
      ensures ok ==> Skip(buf, old(pos)) == Some(pos) && old(pos) < pos <= |buf|
      decreases |buf| - pos, 0
    {
      var start := pos;
      var h := NextHead();
      if h.None? {
        return false;
      }
      if h.value.major == 0 || h.value.major == 1 || h.value.major == 7 {
        return true;
      } else if h.value.major == 2 || h.value.major == 3 {
        if pos + h.value.value > |buf| {
          return false;
        }
        pos := pos + h.value.value;
        return true;
      } else if h.value.major == 4 || h.value.major == 5 {
        var count := if h.value.major == 4 then h.value.value else 2 * h.value.value;
        var i := 0;
        ghost var from := pos;
        while i < count
          invariant i <= count && start < from <= pos <= |buf|
          invariant SkipMany(buf, from, count) == SkipMany(buf, pos, count - i)
          decreases count - i
        {
          var item := SkipItem();
          if !item {
            return false;
          }
          i := i + 1;
        }
        return true;
      } else {
        return false;
      }
    }
  }

  /** `struct abk_cbor_writer`: appends to a fixed buffer and latches the first overflow. */
  class Writer {
    const buf: array<byte>
    var pos: nat
    var err: bool

    ghost predicate Valid()
      reads this
    {
      pos <= buf.Length
    }

    /** The bytes written so far. */
    ghost function Contents(): seq<byte>
      reads this, buf
      requires Valid()
    {
      buf[..pos]
    }

    constructor (buf: array<byte>)
      ensures this.buf == buf && Valid() && pos == 0 && !err
    {
      this.buf := buf;
      pos := 0;
      err := false;
    }

    /** The call appended `piece`, or latched the overflow because `piece` no longer fitted. */
    twostate predicate Wrote(piece: seq<byte>)
      reads this, buf
      requires old(Valid())
    {
      && Valid()
      && err == (old(err) || old(pos) + |piece| > buf.Length)
      && (!err ==> Contents() == old(Contents()) + piece)
    }

    method PutHead(major: nat, value: nat)
      requires Valid() && major < 8 && value < TWO_64
      modifies this, buf
      ensures Wrote(EncodeHead(Shortest(major, value)))
      ensures err ==> Contents() == old(Contents())
    {
      if err {
        return;
      }
      if value <= 23 {
        Emit(major * 32 + value, 0, 0);
      } else if value <= 0xff {
        Emit(major * 32 + 24, value, 1);
      } else if value <= 0xffff {
        Emit(major * 32 + 25, value, 2);
      } else if value <= 0xffff_ffff {
        Emit(major * 32 + 26, value, 4);
      } else {
        Emit(major * 32 + 27, value, 8);
      }
    }

    /** The initial byte and `width` big-endian argument bytes, or the overflow latch. */
    method Emit(first: byte, value: nat, width: nat)
      requires Valid() && !err
      modifies this, buf
      ensures Wrote([first] + BeBytes(value, width))
      ensures err ==> Contents() == old(Contents())
    {
      if pos + 1 + width > buf.Length {
        err := true;
        return;
      }
      var bytes := [first] + BeBytes(value, width);
      Append(bytes);
    }

    method Append(bytes: seq<byte>)
      requires Valid() && pos + |bytes| <= buf.Length
      modifies this`pos, buf
      ensures Valid() && Contents() == old(Contents()) + bytes
    {
      forall i | 0 <= i < |bytes| {
        buf[pos + i] := bytes[i];
      }
      pos := pos + |bytes|;
      assert buf[..pos] == old(buf[..pos]) + bytes;
    }

    method PutInt(value: s64)
      requires Valid()
      modifies this, buf
      ensures Wrote(Encode(Cbor.Int(value)))
    {
      if value >= 0 {
        PutHead(0, value);
      } else {
        PutHead(1, -1 - value);
      }
    }

    /** A byte string (major 2) or a text string (major 3): head, then payload. */
    method PutStr(major: nat, data: seq<byte>)
      requires Valid() && (major == 2 || major == 3) && |data| < TWO_64
      modifies this, buf
      ensures Wrote(Encode(Cbor.Str(Shortest(major, |data|), data)))
    {
      PutHead(major, |data|);
      if err {
        return;
      }
      if pos + |data| > buf.Length {
        err := true;
        return;
      }
      Append(data);
    }

    method PutBool(value: bool)
      requires Valid()
      modifies this, buf
      ensures Wrote(Encode(Cbor.Bool(value)))
    {
      PutHead(7, if value then 21 else 20);
    }
  }
}
