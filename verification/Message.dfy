/** The message union and its size limits (message.cc, message.h). */
module Messages {
  import opened Bytes
  import opened Options

  const MSG_HEADER_LEN := 4
  const MSG_MAX_USERDATA := 64260 - MSG_HEADER_LEN

  function MsgId(raw: seq<byte>): uint16
    requires |raw| >= MSG_HEADER_LEN
  {
    FromLe16(raw[0..2])
  }

  function DataLen(raw: seq<byte>): uint16
    requires |raw| >= MSG_HEADER_LEN
  {
    FromLe16(raw[2..4])
  }

  /** Header length plus the data length the header announces. */
  function GetRawSize(raw: seq<byte>): nat
    requires |raw| >= MSG_HEADER_LEN
  {
    MSG_HEADER_LEN + DataLen(raw)
  }

  function Create(id: uint16, data: seq<byte>): (m: Option<seq<byte>>) {
    if |data| < MSG_MAX_USERDATA then Some(Le16(id) + Le16(|data|) + data) else None
  }

  /** What CreateMessage hands out: bytes whose header agrees with their number. */
  predicate IsMessage(raw: seq<byte>) {
    |raw| >= MSG_HEADER_LEN && |raw| == GetRawSize(raw) && DataLen(raw) < MSG_MAX_USERDATA
  }

  type Message = raw: seq<byte> | IsMessage(raw) && MSG_HEADER_LEN <= |raw| < MSG_HEADER_LEN + MSG_MAX_USERDATA
    witness [0, 0, 0, 0]

  /** A message is created exactly for data under the limit; its header and contents are
      recovered from the bytes, and the 16-bit length field never truncates. */
  lemma CreateMessage(id: uint16, data: seq<byte>)
    ensures Create(id, data).Some? <==> |data| < MSG_MAX_USERDATA
    ensures Create(id, data).Some? ==>
              var raw := Create(id, data).value;
              && IsMessage(raw) && MsgId(raw) == id && DataLen(raw) == |data|
              && raw[MSG_HEADER_LEN..] == data
  {
  }
}
