/** The code that lays packages out in buffers and takes them off a socket. */
module Wire {
  import opened CTypes
  import opened Bytes
  import opened WireSpec

  /** A connection, as the bytes that were sent and not received yet. */
  class Socket {
    var stream: seq<byte>

    constructor ()
      ensures stream == []
    {
      stream := [];
    }

    method Send(bytes: seq<byte>)
      modifies this
      ensures stream == old(stream) + bytes
    {
      stream := stream + bytes;
    }

    /** `recv` of exactly `n` bytes. */
    method Receive(n: nat) returns (bytes: seq<byte>)
      requires n <= |stream|
      modifies this
      ensures bytes == old(stream)[..n] && stream == old(stream)[n..]
    {
      bytes := stream[..n];
      stream := stream[n..];
    }
  }

  /** `memcpy(to + offset, from, |from|)` */
  method CopyBytes(to: array<byte>, offset: nat, from: seq<byte>)
    requires offset + |from| <= to.Length
    modifies to
    ensures to[..] == old(to[..offset]) + from + old(to[offset + |from|..])
  {
    forall i | 0 <= i < |from| {
      to[offset + i] := from[i];
    }
  }

  /** `realloc` to a larger size. */
  method Reallocate(block: array<byte>, length: nat) returns (larger: array<byte>)
    requires length >= block.Length
    ensures fresh(larger) && larger.Length == length && larger[..block.Length] == block[..]
  {
    larger := new byte[length](_ => 0);
    CopyBytes(larger, 0, block[..]);
  }

  /** `t_package` with its growing buffer. */
  class PackageBuffer {
    const operationCode: int32
    var size: int32
    var stream: array<byte>
    ghost var fields: seq<seq<byte>>

    ghost predicate Valid()
      reads this, stream
    {
      size == stream.Length && Sized(fields) && stream[..] == Payload(fields)
    }

    /** `utils_package_create` */
    constructor (code: int32)
      ensures Valid() && fresh(stream) && operationCode == code && fields == [] && size == 0
    {
      operationCode := code;
      size := 0;
      stream := new byte[0];
      fields := [];
    }

    /** `utils_package_add`; the buffer is reallocated, so its address changes. */
    method Add(value: seq<byte>)
      requires Valid() && size + |value| + 4 <= INT_MAX
      modifies this`size, this`stream, this`fields
      ensures Valid() && fresh(stream)
      ensures fields == old(fields) + [value] && size == old(size) + |value| + 4
    {
      PayloadAppend(fields, value);
      stream := Reallocate(stream, size + |value| + 4);
      CopyBytes(stream, size, LeInt(|value|));
      CopyBytes(stream, size + 4, value);
      size := size + |value| + 4;
      fields := fields + [value];
    }

    /** `serializer_serialize_package` */
    method Serialize() returns (magic: array<byte>)
      requires Valid()
      ensures fresh(magic) && magic[..] == Package(operationCode, Payload(fields))
    {
      magic := new byte[size + 8](_ => 0);
      var offset := 0;
      CopyBytes(magic, offset, LeInt(operationCode));
      offset := offset + 4;
      CopyBytes(magic, offset, LeInt(size));
      offset := offset + 4;
      CopyBytes(magic, offset, stream[..]);
      assert magic[..] == LeInt(operationCode) + LeInt(size) + stream[..];
    }
  }

  /** `utils_serialize_and_send` */
  method SerializeAndSend(socket: Socket, m: Message)
    requires Sendable(m)
    modifies socket
    ensures socket.stream == old(socket.stream) + Encode(m)
    ensures var sent := socket.stream[|old(socket.stream)|..];
            match m
            case Malloc(tam, id) =>
              sent == LeInt(1) + LeInt(16) + LeInt(4) + Le32(tam) + LeInt(4) + LeInt(id)
            case MemFree(dir, id) =>
              sent == LeInt(2) + LeInt(16) + LeInt(4) + Le32(dir) + LeInt(4) + LeInt(id)
            case Get(src, id, size) =>
              sent == LeInt(4) + LeInt(24) + LeInt(4) + Le32(src) + LeInt(4) + LeInt(id) + LeInt(4) + LeInt(size)
            case Copy(dst, id, size, content) =>
              sent == LeInt(3) + LeInt(28 + size) + LeInt(4) + Le32(dst) + LeInt(4) + LeInt(id)
                      + LeInt(4) + LeInt(size) + LeInt(size) + content
            case MallocOk(ptr) =>
              sent == LeInt(8) + LeInt(8) + LeInt(4) + Le32(ptr)
            case FreeResponse(res) =>
              sent == LeInt(9) + LeInt(8) + LeInt(4) + LeInt(res)
  {
    EncodingBytes(m);
    var package := new PackageBuffer(Code(m));
    match m {
      case Malloc(tam, id) =>
        package.Add(Le32(tam));
        package.Add(LeInt(id));
      case MemFree(dir, id) =>
        package.Add(Le32(dir));
        package.Add(LeInt(id));
      case Get(src, id, size) =>
        package.Add(Le32(src));
        package.Add(LeInt(id));
        package.Add(LeInt(size));
      case Copy(dst, id, size, content) =>
        package.Add(Le32(dst));
        package.Add(LeInt(id));
        package.Add(LeInt(size));
        package.Add(content);
      case MallocOk(ptr) =>
        package.Add(Le32(ptr));
      case FreeResponse(res) =>
        package.Add(LeInt(res));
    }
    assert package.fields == FieldsOf(m);
    SizesOfMessage(m);
    var bytes := package.Serialize();
    socket.Send(bytes[..]);
  }

  /** `utils_receive_buffer` */
  method ReceiveBuffer(socket: Socket) returns (buffer: seq<byte>)
    requires Arrived(socket.stream)
    modifies socket
    ensures var n := FromLeInt(old(socket.stream));
            && buffer == old(socket.stream)[4..4 + n]
            && socket.stream == old(socket.stream)[4 + n..]
  {
    var prefix := socket.Receive(4);
    var size := FromLeInt(prefix);
    buffer := socket.Receive(size);
  }

  /** `utils_receive_package`: `offset` advances by at least four bytes per field,
      so the loop ends. */
  method ReceivePackage(socket: Socket) returns (values: seq<seq<byte>>)
    requires Arrived(socket.stream)
    modifies socket
    ensures values == ArrivedFields(old(socket.stream))
    ensures socket.stream == old(socket.stream)[4 + FromLeInt(old(socket.stream))..]
  {
    var buffer := ReceiveBuffer(socket);
    values := [];
    var offset := 0;
    while offset < |buffer|
      invariant 0 <= offset <= |buffer| && Framed(buffer[offset..])
      invariant values + Fields(buffer[offset..]) == Fields(buffer)
    {
      var size := FromLeInt(buffer[offset..]);
      ghost var rest := buffer[offset..];
      offset := offset + 4;
      var value := buffer[offset..offset + size];
      offset := offset + size;
      assert rest[4..4 + size] == value && rest[4 + size..] == buffer[offset..];
      values := values + [value];
    }
  }

  /** One turn of the server: the code first, then the package it announces. */
  method ReceiveAndDeserialize(socket: Socket) returns (m: Message)
    requires Decodable(socket.stream)
    modifies socket
    ensures (m, socket.stream) == Decode(old(socket.stream))
  {
    var prefix := socket.Receive(4);
    var code := FromLeInt(prefix);
    var fields := ReceivePackage(socket);
    m := FromFields(code, fields);
  }

  /** The server's loop, until the connection has nothing more to give. */
  method ReceiveAll(socket: Socket) returns (ms: seq<Message>)
    requires AllDecodable(socket.stream)
    modifies socket
    ensures socket.stream == [] && ms == DecodeAll(old(socket.stream))
  {
    ms := [];
    while socket.stream != []
      invariant AllDecodable(socket.stream)
      invariant ms + DecodeAll(socket.stream) == DecodeAll(old(socket.stream))
      decreases |socket.stream|
    {
      var m := ReceiveAndDeserialize(socket);
      ms := ms + [m];
    }
  }

  /** Sender and receiver together: the messages arrive as they were sent. */
  method Exchange(ms: seq<Message>) returns (received: seq<Message>)
    requires forall i :: 0 <= i < |ms| ==> Sendable(ms[i])
    ensures received == ms
  {
    var socket := new Socket();
    for i := 0 to |ms|
      invariant socket.stream == EncodeAll(ms[..i])
    {
      EncodeAllAppend(ms[..i], ms[i]);
      assert ms[..i + 1] == ms[..i] + [ms[i]];
      SerializeAndSend(socket, ms[i]);
    }
    assert ms[..|ms|] == ms;
    DecodeAllEncodeAll(ms);
    received := ReceiveAll(socket);
  }
}
