/** The person-information frame encoder of objcmd.c (set_personinfo).
    A caller-owned frame is filled in place: fixed header, addresses and
    command, the length byte, the object count, six bytes per detected
    object and a one-byte additive checksum. */
module ObjCmd {

  /** One 8-bit field of the frame. */
  type byte = b: int | 0 <= b < 256

  /** Storing an integer into an 8-bit unsigned field keeps it modulo 256
      (Dafny's `%` is never negative, as C's conversion to unsigned). */
  function ToByte(x: int): byte { x % 256 }

  /** The modulus of the uint32_t checksum accumulator. */
  const Uint32Modulus: int := 0x1_0000_0000

  /** `a += b` on a uint32_t whose value is `a`, for an addend `b` that is
      itself a uint32_t value: the true sum, less 2^32 when it overflows. */
  function AddUint32(a: int, b: int): (r: int)
    requires 0 <= a < Uint32Modulus && 0 <= b < Uint32Modulus
    ensures 0 <= r < Uint32Modulus
  {
    if a + b < Uint32Modulus then a + b else a + b - Uint32Modulus
  }

  /** The value a uint32_t holds after a true (unbounded) total `x` was
      accumulated into it from zero: `x` with every multiple of 2^32 taken
      off. */
  function Wrap32(x: nat): (r: nat)
    ensures r < Uint32Modulus
  {
    if x < Uint32Modulus then x else Wrap32(x - Uint32Modulus)
  }

  // Protocol constants of protocol.h. Their values are not part of this
  // model, so every property below holds whatever they are.
  /** FRAME_HEADER1 */
  const FrameHeader1: byte
  /** FRAME_HEADER2 */
  const FrameHeader2: byte
  /** BROADCAST_ADDR */
  const BroadcastAddr: byte
  /** CAMERAL_BOARD_ADDR */
  const CameralBoardAddr: byte
  /** FRAME_PERSON_INFO_CMD */
  const FramePersonInfoCmd: byte

  /** A possibly null pointer to a read-only value. */
  datatype Option<T> = None | Some(value: T)

  /** One detected object. The C field widths live in obj_info.h, so each
      field is an unbounded integer here and is truncated when stored. */
  datatype Obj = Obj(offL: int, offT: int, width: int, height: int, offZ: int, angle: int)

  /** obj_show_t: the object count and the object array; only the first
      `num` entries are read. */
  datatype ObjShow = ObjShow(num: nat, obj: seq<Obj>)

  /** Frame_T. The header fields are bytes; `frameInfo` is the fixed
      payload buffer embedded in the structure, so the array itself never
      changes, only its contents. */
  class Frame {
    var frameHeader1: byte
    var frameHeader2: byte
    var destAddr: byte
    var srcAddr: byte
    var frameLen: byte
    var cmd: byte
    const frameInfo: array<byte>
    var check: byte

    /** A zero-filled frame whose payload buffer holds `capacity` bytes. */
    constructor (capacity: nat)
      ensures fresh(frameInfo) && frameInfo.Length == capacity
      ensures frameInfo[..] == seq(capacity, _ => 0)
      ensures frameHeader1 == frameHeader2 == destAddr == srcAddr == frameLen == cmd == check == 0
    {
      frameHeader1, frameHeader2, destAddr, srcAddr := 0, 0, 0, 0;
      frameLen, cmd, check := 0, 0, 0;
      frameInfo := new byte[capacity](_ => 0);
    }

    /** Every byte of the frame, in the order of the structure's fields. */
    function Bytes(): (r: seq<byte>)
      reads this, frameInfo
      ensures |r| == frameInfo.Length + 7
    {
      [frameHeader1, frameHeader2, destAddr, srcAddr, frameLen, cmd] + frameInfo[..] + [check]
    }
  }

  /** The check byte of a frame: the low byte of the sum of the length
      byte, the command byte, the count byte and the object bytes. */
  function CheckByte(len: byte, cmd: byte, count: byte, packed: seq<byte>): byte
  {
    ToByte(len + cmd + count + Sum(packed))
  }

  /** The six payload bytes of one object, in wire order. */
  function ObjBytes(o: Obj): seq<byte>
  {
    [ToByte(o.offL), ToByte(o.offT), ToByte(o.width), ToByte(o.height), ToByte(o.offZ), ToByte(o.angle)]
  }

  /** The object part of the payload: the objects' bytes, one object after
      the other in input order. */
  function Payload(objs: seq<Obj>): (r: seq<byte>)
    ensures |r| == 6 * |objs|
  {
    if objs == [] then [] else Payload(objs[..|objs| - 1]) + ObjBytes(objs[|objs| - 1])
  }

  /** The arithmetic sum of a byte sequence. */
  function Sum(s: seq<byte>): nat
  {
    if s == [] then 0 else Sum(s[..|s| - 1]) + s[|s| - 1]
  }

  /** Object `i` occupies payload bytes `6i .. 6i+6`. */
  lemma {:induction false} PayloadLayout(objs: seq<Obj>, i: nat)
    requires i < |objs|
    ensures Payload(objs)[6 * i .. 6 * i + 6] == ObjBytes(objs[i])
  {
    var init := objs[..|objs| - 1];
    assert Payload(objs) == Payload(init) + ObjBytes(objs[|objs| - 1]);
    if i < |objs| - 1 {
      PayloadLayout(init, i);
      assert init[i] == objs[i];
    }
  }

  /** Each payload byte is the truncated field it stands for: byte `6i + j`
      is field `j` of object `i`. */
  lemma PayloadFields(objs: seq<Obj>, i: nat)
    requires i < |objs|
    ensures Payload(objs)[6 * i] == ToByte(objs[i].offL)
    ensures Payload(objs)[6 * i + 1] == ToByte(objs[i].offT)
    ensures Payload(objs)[6 * i + 2] == ToByte(objs[i].width)
    ensures Payload(objs)[6 * i + 3] == ToByte(objs[i].height)
    ensures Payload(objs)[6 * i + 4] == ToByte(objs[i].offZ)
    ensures Payload(objs)[6 * i + 5] == ToByte(objs[i].angle)
  {
    PayloadLayout(objs, i);
    var w := Payload(objs)[6 * i .. 6 * i + 6];
    assert w[0] == Payload(objs)[6 * i] && w[5] == Payload(objs)[6 * i + 5];
  }

  /** Appending one object appends its six bytes to the payload. */
  lemma PayloadSnoc(objs: seq<Obj>, k: nat)
    requires k < |objs|
    ensures Payload(objs[..k + 1]) == Payload(objs[..k]) + ObjBytes(objs[k])
  {
    assert objs[..k + 1][..k] == objs[..k];
  }

  /** The sum splits over concatenation. */
  lemma {:induction false} SumAppend(a: seq<byte>, b: seq<byte>)
    ensures Sum(a + b) == Sum(a) + Sum(b)
  {
    if b != [] {
      assert (a + b)[..|a + b| - 1] == a + b[..|b| - 1];
      SumAppend(a, b[..|b| - 1]);
    } else {
      assert a + b == a;
    }
  }

  /** The sum of one object's bytes is the sum of its six truncated fields. */
  lemma SumObjBytes(o: Obj)
    ensures Sum(ObjBytes(o)) == ToByte(o.offL) + ToByte(o.offT) + ToByte(o.width)
                              + ToByte(o.height) + ToByte(o.offZ) + ToByte(o.angle)
  {
    SumSix(ObjBytes(o));
  }

  /** One pass of the packing loop: writing object `i`'s six bytes right
      after the count byte and the first `i` objects extends the packed part
      by that object, and its sum by the object's six bytes; the rest of the
      original buffer after the new slot is kept. */
  lemma PackStep(orig: seq<byte>, objs: seq<Obj>, i: nat, pre: seq<byte>, post: seq<byte>, base: nat)
    requires i < |objs| && 7 + 6 * i <= |orig|
    requires pre == orig[..1] + Payload(objs[..i]) + orig[1 + 6 * i ..]
    requires post == pre[..1 + 6 * i] + ObjBytes(objs[i]) + pre[7 + 6 * i ..]
    ensures post == orig[..1] + Payload(objs[..i + 1]) + orig[1 + 6 * (i + 1) ..]
    ensures base + Sum(Payload(objs[..i])) + Sum(ObjBytes(objs[i])) == base + Sum(Payload(objs[..i + 1]))
  {
    PayloadSnoc(objs, i);
    assert pre[..1 + 6 * i] == orig[..1] + Payload(objs[..i]);
    assert pre[7 + 6 * i ..] == orig[7 + 6 * i ..];
    SumAppend(Payload(objs[..i]), ObjBytes(objs[i]));
  }

  /** Once the first `n` objects are packed after the count byte, object
      `i` sits in buffer slot `1 + 6i .. 7 + 6i`. */
  lemma ObjectSlot(info: seq<byte>, objs: seq<Obj>, n: nat, i: nat)
    requires n <= |objs| && 1 + 6 * n <= |info| && i < n
    requires info[1 .. 1 + 6 * n] == Payload(objs[..n])
    ensures info[1 + 6 * i .. 7 + 6 * i] == ObjBytes(objs[i])
  {
    SlotOfShifted(info, Payload(objs[..n]), n, i);
    PayloadLayout(objs[..n], i);
  }

  /** Every one of the first `n` objects sits in its own slot, in input
      order, none skipped. */
  lemma ObjectsInPlace(info: seq<byte>, objs: seq<Obj>, n: nat)
    requires n <= |objs| && 1 + 6 * n <= |info|
    requires info[1 .. 1 + 6 * n] == Payload(objs[..n])
    ensures forall i :: 0 <= i < n ==> info[1 + 6 * i .. 7 + 6 * i] == ObjBytes(objs[i])
  {
    forall i | 0 <= i < n
      ensures info[1 + 6 * i .. 7 + 6 * i] == ObjBytes(objs[i])
    {
      ObjectSlot(info, objs, n, i);
    }
  }

  /** Slot `i` of a buffer that holds `p` from index 1 on is slot `i` of `p`. */
  lemma SlotOfShifted(info: seq<byte>, p: seq<byte>, n: nat, i: nat)
    requires 1 + 6 * n <= |info| && |p| == 6 * n && i < n
    requires info[1 .. 1 + 6 * n] == p
    ensures info[1 + 6 * i .. 7 + 6 * i] == p[6 * i .. 6 * i + 6]
  {
    var slot, packed := info[1 + 6 * i .. 7 + 6 * i], p[6 * i .. 6 * i + 6];
    forall k | 0 <= k < 6
      ensures slot[k] == packed[k]
    {
      assert slot[k] == info[1 .. 1 + 6 * n][6 * i + k];
    }
  }

  /** A uint32_t holds its total modulo 2^32. */
  lemma {:induction false} Wrap32IsMod(x: nat)
    ensures Wrap32(x) == x % Uint32Modulus
  {
    if x >= Uint32Modulus {
      Wrap32IsMod(x - Uint32Modulus);
    }
  }

  /** `data += b` on the accumulator of total `x` gives the accumulator of
      total `x + b`. */
  lemma {:induction false} AddUint32Wraps(x: nat, b: byte)
    ensures Wrap32(x) < Uint32Modulus
    ensures AddUint32(Wrap32(x), b) == Wrap32(x + b)
  {
    if x >= Uint32Modulus {
      AddUint32Wraps(x - Uint32Modulus, b);
    }
  }

  /** One `data += b` statement of set_personinfo: on the accumulator of
      total `x`, adding the byte `b` leaves the accumulator of total
      `x + b`. */
  method AddToChecksum(ghost x: nat, data: int, b: byte) returns (r: int)
    requires data == Wrap32(x)
    ensures r == Wrap32(x + b)
  {
    AddUint32Wraps(x, b);
    r := AddUint32(data, b);
  }

  /** The six `data += frameInfo[k]` statements of one loop pass: the
      accumulator of total `x` becomes that of `x` plus the six bytes. */
  method AddObjectBytes(ghost x: nat, data: int, b0: byte, b1: byte, b2: byte, b3: byte, b4: byte, b5: byte)
    returns (r: int)
    requires data == Wrap32(x)
    ensures r == Wrap32(x + b0 + b1 + b2 + b3 + b4 + b5)
  {
    r := AddToChecksum(x, data, b0);
    r := AddToChecksum(x + b0, r, b1);
    r := AddToChecksum(x + b0 + b1, r, b2);
    r := AddToChecksum(x + b0 + b1 + b2, r, b3);
    r := AddToChecksum(x + b0 + b1 + b2 + b3, r, b4);
    r := AddToChecksum(x + b0 + b1 + b2 + b3 + b4, r, b5);
  }

  /** The sum of six bytes, written out. */
  lemma SumSix(s: seq<byte>)
    requires |s| == 6
    ensures Sum(s) == s[0] as int + s[1] + s[2] + s[3] + s[4] + s[5]
  {
    assert Sum(s[..1]) == Sum(s[..0]) + s[0] by { assert s[..1][..0] == s[..0]; }
    assert Sum(s[..2]) == Sum(s[..1]) + s[1] by { assert s[..2][..1] == s[..1]; }
    assert Sum(s[..3]) == Sum(s[..2]) + s[2] by { assert s[..3][..2] == s[..2]; }
    assert Sum(s[..4]) == Sum(s[..3]) + s[3] by { assert s[..4][..3] == s[..3]; }
    assert Sum(s[..5]) == Sum(s[..4]) + s[4] by { assert s[..5][..4] == s[..4]; }
    assert s[..6] == s;
  }

  /** The low byte of the uint32_t accumulator is the low byte of the true
      sum: 256 divides 2^32, so `& 0xff` of the wrapped value loses nothing. */
  lemma LowByteOfUint32(x: nat)
    ensures Wrap32(x) % 256 == x % 256
  {
    Wrap32IsMod(x);
  }

  /** The low byte of the accumulator after the length, command, count
      and object bytes were added is the frame's check byte. */
  lemma LowByteIsCheck(len: byte, cmd: byte, count: byte, packed: seq<byte>)
    ensures Wrap32(len + cmd + count + Sum(packed)) % 256 == CheckByte(len, cmd, count, packed)
  {
    LowByteOfUint32(len + cmd + count + Sum(packed));
  }

  /** One pass of the packing loop: the six fields of `o`, each truncated
      to a byte, are stored at `at .. at + 6`, the rest of the buffer is
      kept, and the six stored bytes are added to the accumulator `data` of
      total `x`. */
  method PackObject(info: array<byte>, at: nat, o: Obj, ghost x: nat, data: int) returns (r: int)
    requires at + 6 <= info.Length
    requires data == Wrap32(x)
    modifies info
    ensures info[..] == old(info[..at]) + ObjBytes(o) + old(info[at + 6 ..])
    ensures r == Wrap32(x + Sum(ObjBytes(o)))
  {
    info[at] := ToByte(o.offL);
    info[at + 1] := ToByte(o.offT);
    info[at + 2] := ToByte(o.width);
    info[at + 3] := ToByte(o.height);
    info[at + 4] := ToByte(o.offZ);
    info[at + 5] := ToByte(o.angle);
    SumObjBytes(o);
    r := AddObjectBytes(x, data, info[at], info[at + 1], info[at + 2], info[at + 3], info[at + 4], info[at + 5]);
  }

  /** The packing loop's invariant after `i` passes: the buffer holds the
      original count byte, the first `i` objects' bytes and the original
      bytes after them, and the accumulator holds `base` plus their sum. */
  ghost predicate Packed(buf: seq<byte>, orig: seq<byte>, objs: seq<Obj>, i: nat, base: nat, data: int)
  {
    i <= |objs| && 1 + 6 * i <= |orig| &&
    buf == orig[..1] + Payload(objs[..i]) + orig[1 + 6 * i ..] &&
    data == Wrap32(base + Sum(Payload(objs[..i])))
  }

  /** Pass `i` of the packing loop: it packs object `i` and adds its bytes
      to the accumulator, re-establishing the invariant for `i + 1`. */
  method PackNext(info: array<byte>, d: ObjShow, i: nat, ghost orig: seq<byte>, ghost base: nat, data: int)
    returns (r: int)
    requires i < d.num <= |d.obj| && 1 + 6 * d.num <= info.Length
    requires Packed(info[..], orig, d.obj, i, base, data)
    modifies info
    ensures Packed(info[..], orig, d.obj, i + 1, base, r)
  {
    ghost var pre := info[..];
    var at := 1 + i * 6;
    assert at == 1 + 6 * i;
    r := PackObject(info, at, d.obj[i], base + Sum(Payload(d.obj[..i])), data);
    PackStep(orig, d.obj, i, pre, info[..], base);
  }

  /** The packing loop of set_personinfo: for each of the `num` objects in
      order, store its six bytes at `1 + 6i` and add each stored byte to the
      uint32_t accumulator `data`. The count byte and the rest of the buffer
      are kept. */
  method PackObjects(info: array<byte>, d: ObjShow, ghost base: nat, data0: int) returns (data: int)
    requires d.num <= |d.obj| && 1 + 6 * d.num <= info.Length
    requires data0 == Wrap32(base)
    modifies info
    ensures info[0] == old(info[0])
    ensures info[1 .. 1 + 6 * d.num] == Payload(d.obj[..d.num])
    ensures info[1 + 6 * d.num ..] == old(info[1 + 6 * d.num ..])
    ensures data == Wrap32(base + Sum(Payload(d.obj[..d.num])))
  {
    data := data0;
    ghost var orig := info[..];
    assert Packed(info[..], orig, d.obj, 0, base, data) by {
      assert orig == orig[..1] + Payload(d.obj[..0]) + orig[1..];
    }
    if d.num != 0 {
      for i := 0 to d.num
        invariant Packed(info[..], orig, d.obj, i, base, data)
      {
        data := PackNext(info, d, i, orig, base, data);
      }
    }
  }

  /** The header part of set_personinfo: the protocol constants, the
      length byte, the command and the count byte are stored, and the
      length, command and count are added to a zero accumulator. The rest
      of the payload buffer is kept. */
  method WriteHeader(frame: Frame, num: nat) returns (data: int)
    requires 1 <= frame.frameInfo.Length
    modifies frame, frame.frameInfo
    ensures frame.frameHeader1 == FrameHeader1 && frame.frameHeader2 == FrameHeader2
    ensures frame.destAddr == BroadcastAddr && frame.srcAddr == CameralBoardAddr
    ensures frame.frameLen == ToByte(3 + 6 * num) && frame.cmd == FramePersonInfoCmd
    ensures frame.frameInfo[0] == ToByte(num)
    ensures frame.frameInfo[1..] == old(frame.frameInfo[1..])
    ensures frame.check == old(frame.check)
    ensures data == Wrap32(frame.frameLen + frame.cmd + frame.frameInfo[0])
  {
    var info := frame.frameInfo;
    frame.frameHeader1 := FrameHeader1;
    frame.frameHeader2 := FrameHeader2;
    frame.destAddr := BroadcastAddr;
    frame.srcAddr := CameralBoardAddr;
    frame.frameLen := ToByte(3 + num * 6);
    frame.cmd := FramePersonInfoCmd;
    info[0] := ToByte(num);
    data := 0;
    data := AddToChecksum(0, data, frame.frameLen);
    data := AddToChecksum(frame.frameLen, data, frame.cmd);
    data := AddToChecksum(frame.frameLen + frame.cmd, data, info[0]);
  }

  /** set_personinfo. A null frame or a null object set leaves everything
      untouched. Otherwise the header, addresses and command get their
      protocol constants, the length byte holds 3 + 6*num truncated, the
      payload holds the count followed by six bytes per object in input
      order, the rest of the payload buffer is kept, and `check` is the low
      byte of the sum of the length, command, count and object bytes. */
  method SetPersonInfo(frame: Frame?, objdata: Option<ObjShow>)
    requires frame != null && objdata.Some? ==>
               objdata.value.num <= |objdata.value.obj| &&
               1 + 6 * objdata.value.num <= frame.frameInfo.Length
    modifies if frame != null then {frame, frame.frameInfo} else {}
    ensures frame != null && objdata.None? ==> unchanged(frame, frame.frameInfo)
    ensures frame != null && objdata.Some? ==>
              frame.frameHeader1 == FrameHeader1 && frame.frameHeader2 == FrameHeader2 &&
              frame.destAddr == BroadcastAddr && frame.srcAddr == CameralBoardAddr &&
              frame.cmd == FramePersonInfoCmd
    ensures frame != null && objdata.Some? ==>
              frame.frameLen == ToByte(3 + 6 * objdata.value.num) &&
              frame.frameInfo[0] == ToByte(objdata.value.num)
    ensures frame != null && objdata.Some? ==>
              frame.frameInfo[1 .. 1 + 6 * objdata.value.num] ==
                Payload(objdata.value.obj[..objdata.value.num])
    ensures frame != null && objdata.Some? ==>
              forall i :: 0 <= i < objdata.value.num ==>
                frame.frameInfo[1 + 6 * i .. 7 + 6 * i] == ObjBytes(objdata.value.obj[i])
    ensures frame != null && objdata.Some? ==>
              frame.frameInfo[1 + 6 * objdata.value.num ..] ==
                old(frame.frameInfo[1 + 6 * objdata.value.num ..])
    ensures frame != null && objdata.Some? ==>
              frame.check == CheckByte(frame.frameLen, frame.cmd, frame.frameInfo[0],
                                       frame.frameInfo[1 .. 1 + 6 * objdata.value.num])
    ensures frame != null && objdata.Some? && objdata.value.num == 0 ==>
              frame.frameLen == 3 && frame.frameInfo[0] == 0 &&
              frame.check == (3 + FramePersonInfoCmd) % 256 &&
              frame.frameInfo[1..] == old(frame.frameInfo[1..])
  {
    var data: int;

    if frame == null || objdata.None? {
      return;
    }
    var d := objdata.value;
    var info := frame.frameInfo;
    ghost var entry := info[..];
    data := WriteHeader(frame, d.num);
    ghost var base: nat := frame.frameLen + frame.cmd + info[0];
    ghost var headed := info[..];
    assert headed[1 + 6 * d.num ..] == entry[1 + 6 * d.num ..] by {
      assert headed[1..] == entry[1..];
    }

    data := PackObjects(info, d, base, data);
    LowByteIsCheck(frame.frameLen, frame.cmd, info[0], info[1 .. 1 + 6 * d.num]);
    frame.check := data % 256;
    ObjectsInPlace(info[..], d.obj, d.num);
  }

  /** The whole image of a zero-filled frame with a `capacity`-byte
      payload buffer once the first `num` objects of `d` are encoded into
      it: header, addresses, length and command, then the count, the object
      bytes and the untouched zeros, then the check byte. */
  function Encoding(d: ObjShow, capacity: nat): (r: seq<byte>)
    requires d.num <= |d.obj| && 1 + 6 * d.num <= capacity
    ensures |r| == capacity + 7
  {
    var len, count, packed := ToByte(3 + 6 * d.num), ToByte(d.num), Payload(d.obj[..d.num]);
    [FrameHeader1, FrameHeader2, BroadcastAddr, CameralBoardAddr, len, FramePersonInfoCmd]
      + ([count] + packed + seq(capacity - 1 - 6 * d.num, _ => 0))
      + [CheckByte(len, FramePersonInfoCmd, count, packed)]
  }

  /** Encoding objects into a fresh frame yields exactly `Encoding`: the
      bytes sent depend on the objects and the buffer size alone. */
  method EncodeFresh(d: ObjShow, capacity: nat) returns (bytes: seq<byte>)
    requires d.num <= |d.obj| && 1 + 6 * d.num <= capacity
    ensures bytes == Encoding(d, capacity)
  {
    var f := new Frame(capacity);
    ghost var zeros := f.frameInfo[..];
    SetPersonInfo(f, Some(d));
    bytes := f.Bytes();
    EncodingFromParts(d, zeros, f.frameInfo[..], f.check);
  }

  /** A buffer filled in as set_personinfo fills a zeroed one, framed by the
      constant header and its check byte, is `Encoding`. */
  lemma EncodingFromParts(d: ObjShow, zeros: seq<byte>, buf: seq<byte>, check: byte)
    requires d.num <= |d.obj| && 1 + 6 * d.num <= |zeros| == |buf|
    requires zeros == seq(|zeros|, _ => 0)
    requires buf[0] == ToByte(d.num)
    requires buf[1 .. 1 + 6 * d.num] == Payload(d.obj[..d.num])
    requires buf[1 + 6 * d.num ..] == zeros[1 + 6 * d.num ..]
    requires check == CheckByte(ToByte(3 + 6 * d.num), FramePersonInfoCmd, buf[0], buf[1 .. 1 + 6 * d.num])
    ensures [FrameHeader1, FrameHeader2, BroadcastAddr, CameralBoardAddr, ToByte(3 + 6 * d.num), FramePersonInfoCmd]
              + buf + [check] == Encoding(d, |zeros|)
  {
    assert buf == buf[..1] + buf[1 .. 1 + 6 * d.num] + buf[1 + 6 * d.num ..];
    assert zeros[1 + 6 * d.num ..] == seq(|zeros| - 1 - 6 * d.num, _ => 0);
  }

  /** The payload part of the two-object example: the twelve fields in
      order, summing to 318. */
  lemma TwoObjectPayload(a: Obj, b: Obj)
    requires a == Obj(5, 10, 20, 30, 1, 90) && b == Obj(6, 11, 21, 31, 2, 91)
    ensures Payload([a, b]) == [5, 10, 20, 30, 1, 90, 6, 11, 21, 31, 2, 91]
    ensures Sum(Payload([a, b])) == 318
  {
    assert Payload([a, b]) == ObjBytes(a) + ObjBytes(b) by {
      assert [a, b][..1] == [a];
      assert [a][..0] == [];
    }
    assert Sum(ObjBytes(a)) == 156 by { SumObjBytes(a); }
    assert Sum(ObjBytes(b)) == 162 by { SumObjBytes(b); }
    SumAppend(ObjBytes(a), ObjBytes(b));
  }

  /** Two objects {5,10,20,30,1,90} and {6,11,21,31,2,91} in a 13-byte
      payload: length 15, payload [2, the twelve fields], and a check byte of
      (15 + cmd + 2 + 318) mod 256. */
  lemma TwoObjectFrame()
    ensures Encoding(ObjShow(2, [Obj(5, 10, 20, 30, 1, 90), Obj(6, 11, 21, 31, 2, 91)]), 13) ==
              [FrameHeader1, FrameHeader2, BroadcastAddr, CameralBoardAddr, 15, FramePersonInfoCmd,
               2, 5, 10, 20, 30, 1, 90, 6, 11, 21, 31, 2, 91, (15 + FramePersonInfoCmd + 2 + 318) % 256]
  {
    var a, b := Obj(5, 10, 20, 30, 1, 90), Obj(6, 11, 21, 31, 2, 91);
    TwoObjectPayload(a, b);
    assert [a, b][..2] == [a, b];
  }

  /** The check byte covers exactly the length byte, the command byte, the
      count byte and the object bytes: a receiver that sums frame bytes 4 up
      to the last object byte and keeps the low byte finds the check byte. */
  lemma CheckCoversFrame(d: ObjShow, capacity: nat)
    requires d.num <= |d.obj| && 1 + 6 * d.num <= capacity
    ensures Encoding(d, capacity)[capacity + 6] == ToByte(Sum(Encoding(d, capacity)[4 .. 7 + 6 * d.num]))
  {
    var e := Encoding(d, capacity);
    var len, count, packed := ToByte(3 + 6 * d.num), ToByte(d.num), Payload(d.obj[..d.num]);
    var counted := [len, FramePersonInfoCmd, count];
    assert e[4 .. 7 + 6 * d.num] == counted + packed;
    SumAppend(counted, packed);
    assert Sum([len]) == len by { assert [len][..0] == []; }
    assert Sum([len, FramePersonInfoCmd]) == len + FramePersonInfoCmd by {
      assert [len, FramePersonInfoCmd][..1] == [len];
    }
    assert Sum(counted) == len + FramePersonInfoCmd + count by {
      assert counted[..2] == [len, FramePersonInfoCmd];
    }
  }

  /** The length byte is the true length 3 + 6*num exactly when num is at
      most 42; beyond that the store into the 8-bit field wraps. */
  lemma FrameLenExact(d: ObjShow, capacity: nat)
    requires d.num <= |d.obj| && 1 + 6 * d.num <= capacity
    ensures Encoding(d, capacity)[4] == 3 + 6 * d.num <==> d.num <= 42
  {
  }
}
