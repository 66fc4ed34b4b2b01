# Person-information frame encoder

This project models `set_personinfo`, the frame encoder of the object
detection example. The encoder fills a caller-owned `Frame_T` in place:

- the two fixed header bytes, the broadcast destination address, the camera
  board source address and the person-information command;
- the length byte `3 + 6*num`;
- the payload buffer `frameInfo`, which holds the object count followed by
  six bytes per detected object (left offset, top offset, width, height,
  depth offset, angle);
- a one-byte additive checksum over the length, command, count and object
  bytes.

The checksum is accumulated in a `uint32_t`, and its low byte is stored.

Everything is in one module, `ObjCmd` (`objcmd.dfy`):

- `Frame` is a class with one byte field per header field. The payload
  buffer is an `array<byte>`.
- `SetPersonInfo` works on that object in place.
- The loop of the C function is `PackObjects`. Each pass is `PackNext`, and
  the statements it runs are `PackObject`. The statements before the loop
  are `WriteHeader`.
- Every `data += …` is `AddToChecksum`. It adds with explicit 2^32
  wrap-around and is proved against `Wrap32`, which gives the value the
  accumulator holds for an unbounded true total.
- The payload a call writes is specified by the functions `Payload` (the
  object bytes in order) and `CheckByte` (the low byte of the sum).
- `Encoding` gives the complete image of a zero-filled frame after a call.

The values of the five protocol constants are unspecified constants. Every
property holds whatever their values are.

## Model

| member | source | states |
|---|---|---|
| ObjCmd.SetPersonInfo | ugelis/kelis_example/ai_example/obj_ai_body_TinyyoloV2/src/protocol/objcmd.c:6-45 | With a null `objdata` the frame is unchanged, and with a null frame nothing is modified. Otherwise: the header, addresses and command hold the protocol constants; the length byte is 3 + 6*num truncated to 8 bits; payload byte 0 is num truncated; object i is in `frameInfo[1+6i .. 7+6i]` in field order; the buffer after the last object is untouched; the check byte is the low byte of length + command + count + the object bytes. For num = 0: length 3, count 0, check (3 + cmd) mod 256, and the payload after the count is untouched. |
| ObjCmd.WriteHeader | ugelis/kelis_example/ai_example/obj_ai_body_TinyyoloV2/src/protocol/objcmd.c:15-24 | The six header fields and the count byte hold their values, the rest of the buffer and the check byte are kept, and the accumulator holds length + command + count. |
| ObjCmd.PackObjects | ugelis/kelis_example/ai_example/obj_ai_body_TinyyoloV2/src/protocol/objcmd.c:25-42 | After the loop, bytes 1 .. 1+6*num are the objects' bytes in input order. The count byte and all later bytes are kept. The accumulator has grown by the sum of the object bytes, modulo 2^32. |
| ObjCmd.PackNext | ugelis/kelis_example/ai_example/obj_ai_body_TinyyoloV2/src/protocol/objcmd.c:27-41 | One pass takes the loop invariant for i objects to the invariant for i + 1 objects. |
| ObjCmd.PackObject | ugelis/kelis_example/ai_example/obj_ai_body_TinyyoloV2/src/protocol/objcmd.c:29-40 | The six truncated fields of the object are at `at .. at+6`, every other buffer byte is kept, and the accumulator has grown by the six bytes, modulo 2^32. |
| ObjCmd.AddObjectBytes | ugelis/kelis_example/ai_example/obj_ai_body_TinyyoloV2/src/protocol/objcmd.c:35-40 | Six wrapping additions to the accumulator of total x give the accumulator of total x plus the six bytes. |
| ObjCmd.AddToChecksum | ugelis/kelis_example/ai_example/obj_ai_body_TinyyoloV2/src/protocol/objcmd.c:22-24 | One wrapping `data += b` on the accumulator of total x gives the accumulator of total x + b. |
| ObjCmd.AddUint32 | ugelis/kelis_example/ai_example/obj_ai_body_TinyyoloV2/src/protocol/objcmd.c:22-24 | Unsigned 32-bit addition stays within 0 .. 2^32 - 1. |
| ObjCmd.Wrap32 | ugelis/kelis_example/ai_example/obj_ai_body_TinyyoloV2/src/protocol/objcmd.c:8 | The value a `uint32_t` holds for a true total is below 2^32. |
| ObjCmd.Wrap32IsMod | ugelis/kelis_example/ai_example/obj_ai_body_TinyyoloV2/src/protocol/objcmd.c:8 | That value is the true total modulo 2^32. |
| ObjCmd.AddUint32Wraps | ugelis/kelis_example/ai_example/obj_ai_body_TinyyoloV2/src/protocol/objcmd.c:22-24 | A wrapping addition of a byte commutes with wrapping the total. |
| ObjCmd.LowByteOfUint32 | ugelis/kelis_example/ai_example/obj_ai_body_TinyyoloV2/src/protocol/objcmd.c:44 | `data & 0xff` of the wrapped accumulator equals the low byte of the true sum, because 256 divides 2^32. |
| ObjCmd.LowByteIsCheck | ugelis/kelis_example/ai_example/obj_ai_body_TinyyoloV2/src/protocol/objcmd.c:22-44 | The low byte of the accumulator after the length, command, count and object bytes is the frame's check byte. |
| ObjCmd.Payload | ugelis/kelis_example/ai_example/obj_ai_body_TinyyoloV2/src/protocol/objcmd.c:27-34 | The packed objects take exactly six bytes each. |
| ObjCmd.PayloadLayout | ugelis/kelis_example/ai_example/obj_ai_body_TinyyoloV2/src/protocol/objcmd.c:29-34 | Object i occupies packed bytes 6i .. 6i+6, as its six truncated fields. |
| ObjCmd.PayloadFields | ugelis/kelis_example/ai_example/obj_ai_body_TinyyoloV2/src/protocol/objcmd.c:29-34 | Packed byte 6i + j is field j of object i, in the order off_l, off_t, width, height, off_z, angle, truncated to 8 bits. |
| ObjCmd.PayloadSnoc | ugelis/kelis_example/ai_example/obj_ai_body_TinyyoloV2/src/protocol/objcmd.c:27-34 | Packing one more object appends exactly its six bytes. |
| ObjCmd.SumAppend | ugelis/kelis_example/ai_example/obj_ai_body_TinyyoloV2/src/protocol/objcmd.c:35-40 | The byte sum splits over concatenation. |
| ObjCmd.SumObjBytes | ugelis/kelis_example/ai_example/obj_ai_body_TinyyoloV2/src/protocol/objcmd.c:35-40 | An object contributes the sum of its six truncated fields. |
| ObjCmd.PackStep | ugelis/kelis_example/ai_example/obj_ai_body_TinyyoloV2/src/protocol/objcmd.c:27-40 | Writing object i after the count and the first i objects gives the buffer of i + 1 packed objects over the same original bytes. The total grows by exactly that object's bytes. |
| ObjCmd.ObjectSlot | ugelis/kelis_example/ai_example/obj_ai_body_TinyyoloV2/src/protocol/objcmd.c:29-34 | In a packed buffer, object i sits at buffer bytes 1+6i .. 7+6i. |
| ObjCmd.ObjectsInPlace | ugelis/kelis_example/ai_example/obj_ai_body_TinyyoloV2/src/protocol/objcmd.c:27-34 | Every one of the first num objects sits in its own slot, in input order. |
| ObjCmd.Encoding | ugelis/kelis_example/ai_example/obj_ai_body_TinyyoloV2/src/protocol/objcmd.c:15-44 | A frame image is 7 bytes longer than its payload buffer. |
| ObjCmd.EncodeFresh | ugelis/kelis_example/ai_example/obj_ai_body_TinyyoloV2/src/protocol/objcmd.c:6-45 | Encoding into a zero-filled frame yields exactly `Encoding`. The frame's bytes therefore depend only on the objects and the buffer size, so the same input always gives the same frame. |
| ObjCmd.EncodingFromParts | ugelis/kelis_example/ai_example/obj_ai_body_TinyyoloV2/src/protocol/objcmd.c:15-44 | A buffer with the count byte, the packed objects, the untouched zeros and the matching check byte, behind the constant header, is `Encoding`. |
| ObjCmd.TwoObjectPayload | ugelis/kelis_example/ai_example/obj_ai_body_TinyyoloV2/src/protocol/objcmd.c:27-40 | In the two-object example, the packed bytes are the twelve fields in order, and they sum to 318. |
| ObjCmd.TwoObjectFrame | ugelis/kelis_example/ai_example/obj_ai_body_TinyyoloV2/src/protocol/objcmd.c:15-44 | Objects {5,10,20,30,1,90} and {6,11,21,31,2,91} give length 15, payload [2,5,10,20,30,1,90,6,11,21,31,2,91] and check (15 + cmd + 2 + 318) mod 256. |
| ObjCmd.CheckCoversFrame | ugelis/kelis_example/ai_example/obj_ai_body_TinyyoloV2/src/protocol/objcmd.c:22-44 | The check byte is the low byte of the sum of frame bytes 4 through 6 + 6*num: length, command, count and object bytes. The header and address bytes are not included. |
| ObjCmd.FrameLenExact | ugelis/kelis_example/ai_example/obj_ai_body_TinyyoloV2/src/protocol/objcmd.c:19 | The length byte equals 3 + 6*num if and only if num ≤ 42. |

## Left out

- The values of `FRAME_HEADER1`, `FRAME_HEADER2`, `BROADCAST_ADDR`, `CAMERAL_BOARD_ADDR` and `FRAME_PERSON_INFO_CMD` are not modelled. protocol.h is not part of this model, so they are constants without a value.
- The field widths of `obj_show_t` are not modelled. obj_info.h is not part of this model, so each object field is an unbounded integer and is reduced modulo 256 when stored. This matches C's conversion to an unsigned 8-bit field for any integer type.
- The object count is a natural number. A negative count from a signed C type is not modelled.
- C `int` overflow in `i*6` and `objdata->num * 6` is not modelled. Counts that large cannot meet the buffer requirement below.
- SetPersonInfo: the C function never checks that `frameInfo` holds `1 + 6*num` bytes, or that `obj` holds `num` entries. Writing past either is undefined behaviour, so both are preconditions here.
- The struct layout behind `Frame.Bytes` (header, addresses, length, command, payload, check) is the field order of `Frame_T` as used by the function. Padding and the declared size of `frameInfo` are not part of this model.
- `data & 0xff` is modelled as `data % 256`. The two agree because the accumulator is never negative.
- The function's statements are split into `WriteHeader`, `PackObjects`, `PackNext`, `PackObject`, `AddObjectBytes` and `AddToChecksum`. They run in the C order, and together they are the one C function.
- Transmission of the frame, the detection that produces the objects, and any receiver-side decoding are outside the encoder and are not modelled.
- The frame's documented invariant says the length field always equals 3 + 6*count. The code stores that value truncated to 8 bits, and the model follows the code. `FrameLenExact` states exactly when the two agree.
