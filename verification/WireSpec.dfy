/** The wire format: length-prefixed fields in a length-prefixed package, and
    the messages of the memory service on top of it. */
module WireSpec {
  import opened CTypes
  import opened Bytes

  // ----- Fields

  /** What `utils_package_add` appends for one value. */
  function Field(value: seq<byte>): seq<byte>
    requires |value| <= INT_MAX
  {
    LeInt(|value|) + value
  }

  predicate Sized(fields: seq<seq<byte>>) {
    forall i :: 0 <= i < |fields| ==> |fields[i]| <= INT_MAX
  }

  function Payload(fields: seq<seq<byte>>): seq<byte>
    requires Sized(fields)
  {
    if fields == [] then [] else Field(fields[0]) + Payload(fields[1..])
  }

  /** The bytes are fields, one right after the other, up to the end. */
  predicate Framed(b: seq<byte>) {
    b == [] || (|b| >= 4 && 0 <= FromLeInt(b) <= |b| - 4 && Framed(b[4 + FromLeInt(b)..]))
  }

  function Fields(b: seq<byte>): (fields: seq<seq<byte>>)
    requires Framed(b)
  {
    if b == [] then []
    else
      var n := FromLeInt(b);
      [b[4..4 + n]] + Fields(b[4 + n..])
  }

  function SumOfSizes(fields: seq<seq<byte>>): nat {
    if fields == [] then 0 else 4 + |fields[0]| + SumOfSizes(fields[1..])
  }

  lemma {:induction false} PayloadSize(fields: seq<seq<byte>>)
    requires Sized(fields)
    ensures |Payload(fields)| == SumOfSizes(fields)
  {
    if fields == [] {
    } else {
      PayloadSize(fields[1..]);
    }
  }

  lemma {:induction false} PayloadAppend(fields: seq<seq<byte>>, value: seq<byte>)
    requires Sized(fields) && |value| <= INT_MAX
    ensures Payload(fields + [value]) == Payload(fields) + Field(value)
  {
    if fields == [] {
      assert Payload([value]) == Field(value) + Payload([]);
    } else {
      PayloadAppend(fields[1..], value);
      assert (fields + [value])[1..] == fields[1..] + [value];
    }
  }

  /** What a parser reads off bytes that start with a field. */
  lemma FrontOfField(value: seq<byte>, rest: seq<byte>)
    requires |value| <= INT_MAX
    ensures var b := Field(value) + rest;
            FromLeInt(b) == |value| && b[4..4 + |value|] == value && b[4 + |value|..] == rest
  {
    LeIntRoundTrip(|value|, value + rest);
    assert Field(value) + rest == LeInt(|value|) + (value + rest);
  }

  lemma FieldOfFront(b: seq<byte>)
    requires |b| >= 4 && 0 <= FromLeInt(b) <= |b| - 4
    ensures Field(b[4..4 + FromLeInt(b)]) + b[4 + FromLeInt(b)..] == b
  {
    var n := FromLeInt(b);
    FromLeIntRoundTrip(b);
    assert b == b[..4] + b[4..4 + n] + b[4 + n..];
  }

  /** Parsing gives back the fields that were laid out. */
  lemma {:induction false} FieldsOfPayload(fields: seq<seq<byte>>)
    requires Sized(fields)
    ensures Framed(Payload(fields)) && Fields(Payload(fields)) == fields
  {
    if fields == [] {
    } else {
      FieldsOfPayload(fields[1..]);
      FrontOfField(fields[0], Payload(fields[1..]));
    }
  }

  /** And every framed byte string is the layout of the fields parsed from it. */
  lemma {:induction false} PayloadOfFields(b: seq<byte>)
    requires Framed(b) && |b| <= INT_MAX
    ensures Sized(Fields(b)) && Payload(Fields(b)) == b
    decreases |b|
  {
    if b == [] {
    } else {
      var n := FromLeInt(b);
      PayloadOfFields(b[4 + n..]);
      FieldOfFront(b);
      assert Fields(b)[0] == b[4..4 + n] && Fields(b)[1..] == Fields(b[4 + n..]);
    }
  }

  // ----- Packages

  /** `serializer_serialize_package` */
  function Package(code: int32, payload: seq<byte>): seq<byte>
    requires |payload| <= INT_MAX
  {
    LeInt(code) + LeInt(|payload|) + payload
  }

  lemma PackageSize(code: int32, fields: seq<seq<byte>>)
    requires Sized(fields) && SumOfSizes(fields) <= INT_MAX
    ensures |Payload(fields)| <= INT_MAX
    ensures |Package(code, Payload(fields))| == 8 + SumOfSizes(fields)
  {
    PayloadSize(fields);
  }

  /** What a receiver reads off a stream that starts with a package. */
  lemma FrontOfPackage(code: int32, payload: seq<byte>, rest: seq<byte>)
    requires |payload| <= INT_MAX
    ensures var s := Package(code, payload) + rest;
            && FromLeInt(s) == code
            && FromLeInt(s[4..]) == |payload|
            && s[4..][4..4 + |payload|] == payload
            && s[8 + |payload|..] == rest
  {
    var s := Package(code, payload) + rest;
    var n := LeInt(|payload|);
    assert s == LeInt(code) + (n + payload + rest);
    LeIntRoundTrip(code, n + payload + rest);
    assert s[4..] == n + (payload + rest);
    LeIntRoundTrip(|payload|, payload + rest);
  }

  lemma PackageOfFront(s: seq<byte>)
    requires |s| >= 8 && 0 <= FromLeInt(s[4..]) <= |s| - 8
    ensures var n := FromLeInt(s[4..]);
            Package(FromLeInt(s), s[4..][4..4 + n]) + s[8 + n..] == s
  {
    var n := FromLeInt(s[4..]);
    FromLeIntRoundTrip(s);
    FromLeIntRoundTrip(s[4..]);
    assert s == s[..4] + s[4..][..4] + s[4..][4..4 + n] + s[8 + n..];
  }

  /** A size, and then that many framed bytes: what `utils_receive_package` needs
      to find on the stream. */
  predicate Arrived(stream: seq<byte>) {
    && |stream| >= 4
    && 0 <= FromLeInt(stream) <= |stream| - 4
    && Framed(stream[4..4 + FromLeInt(stream)])
  }

  /** The fields of the package at the front of the stream. */
  function ArrivedFields(stream: seq<byte>): seq<seq<byte>>
    requires Arrived(stream)
  {
    Fields(stream[4..4 + FromLeInt(stream)])
  }

  // ----- Messages

  const MALLOC: int32 := 1
  const MEMFREE: int32 := 2
  const COPY: int32 := 3
  const GET: int32 := 4
  const MALLOC_OK: int32 := 8
  const FREE_RESPONSE: int32 := 9

  datatype Message =
    | Malloc(tam: uint32, idLibmuse: int32)
    | MemFree(dir: uint32, selfId: int32)
    | Get(src: uint32, idLibmuse: int32, size: int32)
    | Copy(dst: uint32, selfId: int32, size: int32, content: seq<byte>)
    | MallocOk(ptr: uint32)
    | FreeResponse(res: int32)

  /** A copy carries as many bytes as it says, and its package's size is an int. */
  predicate Sendable(m: Message) {
    m.Copy? ==> |m.content| == m.size <= INT_MAX - 36
  }

  function Code(m: Message): int32 {
    match m
    case Malloc(_, _) => MALLOC
    case MemFree(_, _) => MEMFREE
    case Get(_, _, _) => GET
    case Copy(_, _, _, _) => COPY
    case MallocOk(_) => MALLOC_OK
    case FreeResponse(_) => FREE_RESPONSE
  }

  function FieldsOf(m: Message): seq<seq<byte>> {
    match m
    case Malloc(tam, id) => [Le32(tam), LeInt(id)]
    case MemFree(dir, id) => [Le32(dir), LeInt(id)]
    case Get(src, id, size) => [Le32(src), LeInt(id), LeInt(size)]
    case Copy(dst, id, size, content) => [Le32(dst), LeInt(id), LeInt(size), content]
    case MallocOk(ptr) => [Le32(ptr)]
    case FreeResponse(res) => [LeInt(res)]
  }

  lemma SumFrom(fields: seq<seq<byte>>, i: nat)
    requires i < |fields|
    ensures SumOfSizes(fields[i..]) == 4 + |fields[i]| + SumOfSizes(fields[i + 1..])
  {
    assert fields[i..][1..] == fields[i + 1..];
  }

  lemma SizesOfMessage(m: Message)
    requires Sendable(m)
    ensures Sized(FieldsOf(m)) && |Payload(FieldsOf(m))| <= INT_MAX - 8
  {
    var fs := FieldsOf(m);
    PayloadSize(fs);
    assert fs[0..] == fs && fs[|fs|..] == [];
    SumFrom(fs, 0);
    if |fs| > 1 {
      SumFrom(fs, 1);
    }
    if |fs| > 2 {
      SumFrom(fs, 2);
    }
    if |fs| > 3 {
      SumFrom(fs, 3);
    }
  }

  function Encode(m: Message): seq<byte>
    requires Sendable(m)
  {
    SizesOfMessage(m);
    Package(Code(m), Payload(FieldsOf(m)))
  }

  /** The fields are there, and each fits the variable it is copied to. */
  predicate Fitting(code: int32, fields: seq<seq<byte>>) {
    if code == MALLOC || code == MEMFREE then
      && |fields| >= 2 && |fields[0]| == |fields[1]| == 4
      && (code == MALLOC ==> forall i :: 2 <= i < |fields| ==> |fields[i]| <= 4)
    else if code == GET then
      |fields| >= 3 && |fields[0]| == |fields[1]| == |fields[2]| == 4
    else if code == COPY then
      && |fields| >= 4 && |fields[0]| == |fields[1]| == |fields[2]| == 4
      && |fields[3]| == FromLeInt(fields[2])
    else
      (code == MALLOC_OK || code == FREE_RESPONSE) && |fields| >= 1 && |fields[0]| == 4
  }

  /** `utils_receive_and_deserialize`, once the list of fields is there. */
  function FromFields(code: int32, fields: seq<seq<byte>>): Message
    requires Fitting(code, fields)
  {
    if code == MALLOC then Malloc(FromLe32(fields[0]), FromLeInt(fields[1]))
    else if code == MEMFREE then MemFree(FromLe32(fields[0]), FromLeInt(fields[1]))
    else if code == GET then Get(FromLe32(fields[0]), FromLeInt(fields[1]), FromLeInt(fields[2]))
    else if code == COPY then Copy(FromLe32(fields[0]), FromLeInt(fields[1]), FromLeInt(fields[2]), fields[3])
    else if code == MALLOC_OK then MallocOk(FromLe32(fields[0]))
    else FreeResponse(FromLeInt(fields[0]))
  }

  lemma FromFieldsOf(m: Message)
    requires Sendable(m)
    ensures Fitting(Code(m), FieldsOf(m)) && FromFields(Code(m), FieldsOf(m)) == m
  {
    var fs := FieldsOf(m);
    assert forall b: seq<byte> :: b + [] == b;
    match m
    case Malloc(tam, id) => Le32RoundTrip(tam, []); LeIntRoundTrip(id, []);
    case MemFree(dir, id) => Le32RoundTrip(dir, []); LeIntRoundTrip(id, []);
    case Get(src, id, size) => Le32RoundTrip(src, []); LeIntRoundTrip(id, []); LeIntRoundTrip(size, []);
    case Copy(dst, id, size, _) => Le32RoundTrip(dst, []); LeIntRoundTrip(id, []); LeIntRoundTrip(size, []);
    case MallocOk(ptr) => Le32RoundTrip(ptr, []);
    case FreeResponse(res) => LeIntRoundTrip(res, []);
  }

  /** A code and the package that goes with it stand at the front of the stream. */
  predicate Decodable(stream: seq<byte>) {
    && |stream| >= 4
    && Arrived(stream[4..])
    && Fitting(FromLeInt(stream), ArrivedFields(stream[4..]))
  }

  /** The first message on a stream, and what follows it. */
  function Decode(stream: seq<byte>): (r: (Message, seq<byte>))
    requires Decodable(stream)
    ensures |r.1| < |stream|
  {
    (FromFields(FromLeInt(stream), ArrivedFields(stream[4..])), stream[8 + FromLeInt(stream[4..])..])
  }

  lemma PackageArrives(code: int32, fields: seq<seq<byte>>, rest: seq<byte>)
    requires Sized(fields) && |Payload(fields)| <= INT_MAX
    ensures var stream := Package(code, Payload(fields)) + rest;
            && FromLeInt(stream) == code
            && Arrived(stream[4..]) && ArrivedFields(stream[4..]) == fields
            && stream[8 + FromLeInt(stream[4..])..] == rest
  {
    var payload := Payload(fields);
    FrontOfPackage(code, payload, rest);
    FieldsOfPayload(fields);
    assert (Package(code, payload) + rest)[4..][4..4 + |payload|] == payload;
  }

  /** Whatever follows an encoded message, decoding gives the message back and
      stops on the first byte after it. */
  lemma DecodeEncode(m: Message, rest: seq<byte>)
    requires Sendable(m)
    ensures Decodable(Encode(m) + rest)
    ensures Decode(Encode(m) + rest) == (m, rest)
  {
    SizesOfMessage(m);
    PackageArrives(Code(m), FieldsOf(m), rest);
    FromFieldsOf(m);
  }

  // ----- The bytes of each message

  /** A list of fields starts with the size and the contents of the first one. */
  lemma FirstField(a: seq<byte>, fields: seq<seq<byte>>)
    requires |a| <= INT_MAX && Sized(fields)
    ensures Sized([a] + fields) && Payload([a] + fields) == LeInt(|a|) + a + Payload(fields)
  {
    assert ([a] + fields)[1..] == fields;
  }

  lemma OneField(a: seq<byte>)
    requires |a| <= INT_MAX
    ensures Payload([a]) == LeInt(|a|) + a
  {
    assert Payload([]) == [];
  }

  lemma TwoFields(a: seq<byte>, b: seq<byte>)
    requires |a| <= INT_MAX && |b| <= INT_MAX
    ensures Payload([a, b]) == LeInt(|a|) + a + LeInt(|b|) + b
  {
    FirstField(a, [b]);
    OneField(b);
    assert [a] + [b] == [a, b];
  }

  lemma ThreeFields(a: seq<byte>, b: seq<byte>, c: seq<byte>)
    requires |a| <= INT_MAX && |b| <= INT_MAX && |c| <= INT_MAX
    ensures Payload([a, b, c]) == LeInt(|a|) + a + LeInt(|b|) + b + LeInt(|c|) + c
  {
    FirstField(a, [b, c]);
    TwoFields(b, c);
    assert [a] + [b, c] == [a, b, c];
  }

  lemma FourFields(a: seq<byte>, b: seq<byte>, c: seq<byte>, d: seq<byte>)
    requires |a| <= INT_MAX && |b| <= INT_MAX && |c| <= INT_MAX && |d| <= INT_MAX
    ensures Payload([a, b, c, d]) == LeInt(|a|) + a + LeInt(|b|) + b + LeInt(|c|) + c + LeInt(|d|) + d
  {
    FirstField(a, [b, c, d]);
    ThreeFields(b, c, d);
    assert [a] + [b, c, d] == [a, b, c, d];
  }

  lemma MallocBytes(tam: uint32, id: int32, rest: seq<byte>)
    ensures var bytes := LeInt(1) + LeInt(16) + LeInt(4) + Le32(tam) + LeInt(4) + LeInt(id);
            && Encode(Malloc(tam, id)) == bytes
            && Decodable(bytes + rest) && Decode(bytes + rest) == (Malloc(tam, id), rest)
  {
    TwoFields(Le32(tam), LeInt(id));
    DecodeEncode(Malloc(tam, id), rest);
  }

  lemma MemFreeBytes(dir: uint32, id: int32, rest: seq<byte>)
    ensures var bytes := LeInt(2) + LeInt(16) + LeInt(4) + Le32(dir) + LeInt(4) + LeInt(id);
            && Encode(MemFree(dir, id)) == bytes
            && Decodable(bytes + rest) && Decode(bytes + rest) == (MemFree(dir, id), rest)
  {
    TwoFields(Le32(dir), LeInt(id));
    DecodeEncode(MemFree(dir, id), rest);
  }

  lemma GetBytes(src: uint32, id: int32, size: int32, rest: seq<byte>)
    ensures var bytes := LeInt(4) + LeInt(24) + LeInt(4) + Le32(src) + LeInt(4) + LeInt(id) + LeInt(4) + LeInt(size);
            && Encode(Get(src, id, size)) == bytes
            && Decodable(bytes + rest) && Decode(bytes + rest) == (Get(src, id, size), rest)
  {
    ThreeFields(Le32(src), LeInt(id), LeInt(size));
    DecodeEncode(Get(src, id, size), rest);
  }

  lemma CopyMessageBytes(dst: uint32, id: int32, content: seq<byte>, rest: seq<byte>)
    requires |content| <= INT_MAX - 36
    ensures var m := Copy(dst, id, |content|, content);
            var bytes := LeInt(3) + LeInt(28 + |content|) + LeInt(4) + Le32(dst) + LeInt(4) + LeInt(id)
                         + LeInt(4) + LeInt(|content|) + LeInt(|content|) + content;
            && Encode(m) == bytes
            && Decodable(bytes + rest) && Decode(bytes + rest) == (m, rest)
  {
    FourFields(Le32(dst), LeInt(id), LeInt(|content|), content);
    DecodeEncode(Copy(dst, id, |content|, content), rest);
  }

  lemma MallocOkBytes(ptr: uint32, rest: seq<byte>)
    ensures var bytes := LeInt(8) + LeInt(8) + LeInt(4) + Le32(ptr);
            && Encode(MallocOk(ptr)) == bytes
            && Decodable(bytes + rest) && Decode(bytes + rest) == (MallocOk(ptr), rest)
  {
    OneField(Le32(ptr));
    DecodeEncode(MallocOk(ptr), rest);
  }

  lemma FreeResponseBytes(res: int32, rest: seq<byte>)
    ensures var bytes := LeInt(9) + LeInt(8) + LeInt(4) + LeInt(res);
            && Encode(FreeResponse(res)) == bytes
            && Decodable(bytes + rest) && Decode(bytes + rest) == (FreeResponse(res), rest)
  {
    OneField(LeInt(res));
    DecodeEncode(FreeResponse(res), rest);
  }

  /** The bytes that are sent, by kind of message. */
  lemma EncodingBytes(m: Message)
    requires Sendable(m)
    ensures m.Malloc? ==> Encode(m) == LeInt(1) + LeInt(16) + LeInt(4) + Le32(m.tam) + LeInt(4) + LeInt(m.idLibmuse)
    ensures m.MemFree? ==> Encode(m) == LeInt(2) + LeInt(16) + LeInt(4) + Le32(m.dir) + LeInt(4) + LeInt(m.selfId)
    ensures m.Copy? ==> Encode(m) == LeInt(3) + LeInt(28 + m.size) + LeInt(4) + Le32(m.dst) + LeInt(4) + LeInt(m.selfId)
                                     + LeInt(4) + LeInt(m.size) + LeInt(m.size) + m.content
    ensures m.Get? ==> Encode(m) == LeInt(4) + LeInt(24) + LeInt(4) + Le32(m.src) + LeInt(4) + LeInt(m.idLibmuse)
                                    + LeInt(4) + LeInt(m.size)
    ensures m.MallocOk? ==> Encode(m) == LeInt(8) + LeInt(8) + LeInt(4) + Le32(m.ptr)
    ensures m.FreeResponse? ==> Encode(m) == LeInt(9) + LeInt(8) + LeInt(4) + LeInt(m.res)
  {
    match m
    case Malloc(tam, id) => MallocBytes(tam, id, []);
    case MemFree(dir, id) => MemFreeBytes(dir, id, []);
    case Get(src, id, size) => GetBytes(src, id, size, []);
    case Copy(dst, id, _, content) => CopyMessageBytes(dst, id, content, []);
    case MallocOk(ptr) => MallocOkBytes(ptr, []);
    case FreeResponse(res) => FreeResponseBytes(res, []);
  }

  /** A first field of four bytes is read from its place, and the others follow it. */
  lemma WordField(b: seq<byte>)
    requires Framed(b) && b != [] && |Fields(b)[0]| == 4
    ensures |b| >= 8 && FromLe32(Fields(b)[0]) == WordAt(b, 4)
    ensures Framed(b[8..]) && Fields(b)[1..] == Fields(b[8..])
  {
    assert Fields(b)[0] == b[4..4 + FromLeInt(b)];
  }

  lemma TwoWords(b: seq<byte>)
    requires Framed(b) && |Fields(b)| >= 2 && |Fields(b)[0]| == |Fields(b)[1]| == 4
    ensures |b| >= 16 && FromLe32(Fields(b)[0]) == WordAt(b, 4) && FromLe32(Fields(b)[1]) == WordAt(b, 12)
    ensures Framed(b[16..]) && Fields(b)[2..] == Fields(b[16..])
  {
    WordField(b);
    var rest := b[8..];
    assert Fields(b)[1] == Fields(rest)[0];
    WordField(rest);
    assert rest[8..] == b[16..] && WordAt(rest, 4) == WordAt(b, 12);
    assert Fields(b)[2..] == Fields(rest)[1..];
  }

  lemma ThreeWords(b: seq<byte>)
    requires Framed(b) && |Fields(b)| >= 3 && |Fields(b)[0]| == |Fields(b)[1]| == |Fields(b)[2]| == 4
    ensures |b| >= 24 && FromLe32(Fields(b)[0]) == WordAt(b, 4) && FromLe32(Fields(b)[1]) == WordAt(b, 12)
    ensures FromLe32(Fields(b)[2]) == WordAt(b, 20)
    ensures Framed(b[24..]) && Fields(b)[3..] == Fields(b[24..])
  {
    TwoWords(b);
    var rest := b[16..];
    assert Fields(b)[2] == Fields(rest)[0];
    WordField(rest);
    assert rest[8..] == b[24..] && WordAt(rest, 4) == WordAt(b, 20);
    assert Fields(b)[3..] == Fields(rest)[1..];
  }

  lemma ContentField(b: seq<byte>)
    requires Framed(b) && b != []
    ensures |Fields(b)[0]| <= |b| - 4 && Fields(b)[0] == b[4..4 + |Fields(b)[0]|]
  {
  }

  /** The message that arrives, read off its places in the package; fields behind those
      of the message are passed over. */
  lemma MessageByPlace(code: int32, b: seq<byte>)
    requires Framed(b) && Fitting(code, Fields(b)) && code != 3
    ensures (1 <= code <= 4 || 8 <= code <= 9) && |b| >= (if code <= 2 then 16 else if code == 4 then 24 else 8)
    ensures FromFields(code, Fields(b))
         == if code == 1 then Malloc(WordAt(b, 4), ToInt32(WordAt(b, 12)))
            else if code == 2 then MemFree(WordAt(b, 4), ToInt32(WordAt(b, 12)))
            else if code == 4 then Get(WordAt(b, 4), ToInt32(WordAt(b, 12)), ToInt32(WordAt(b, 20)))
            else if code == 8 then MallocOk(WordAt(b, 4))
            else FreeResponse(ToInt32(WordAt(b, 4)))
  {
    if code <= 2 {
      TwoWords(b);
    } else if code == 4 {
      ThreeWords(b);
    } else {
      WordField(b);
    }
  }

  lemma CopyByPlace(b: seq<byte>)
    requires Framed(b) && Fitting(3, Fields(b))
    ensures |b| >= 24 && 0 <= ToInt32(WordAt(b, 20)) <= |b| - 28
    ensures var size := ToInt32(WordAt(b, 20));
            FromFields(3, Fields(b)) == Copy(WordAt(b, 4), ToInt32(WordAt(b, 12)), size, b[28..28 + size])
  {
    ThreeWords(b);
    var rest, content := b[24..], Fields(b)[3];
    assert content == Fields(rest)[0];
    ContentField(rest);
    assert rest[4..4 + |content|] == b[28..28 + |content|];
  }

  /** Decoding takes the code, the size and that many bytes off the stream. */
  lemma DecodeByPlace(stream: seq<byte>)
    requires Decodable(stream)
    ensures |stream| >= 8 && 0 <= FromLeInt(stream[4..]) <= |stream| - 8
    ensures var n := FromLeInt(stream[4..]);
            var b := stream[8..8 + n];
            && Framed(b) && Fitting(FromLeInt(stream), Fields(b))
            && Decode(stream) == (FromFields(FromLeInt(stream), Fields(b)), stream[8 + n..])
  {
    var n := FromLeInt(stream[4..]);
    assert stream[8..8 + n] == stream[4..][4..4 + n];
  }

  lemma FieldsOfFromFields(code: int32, fields: seq<seq<byte>>)
    requires Fitting(code, fields) && |fields| == |FieldsOf(FromFields(code, fields))|
    ensures FieldsOf(FromFields(code, fields)) == fields
    ensures Code(FromFields(code, fields)) == code
  {
    assert forall f :: f in fields && |f| == WORD_SIZE ==> f[..WORD_SIZE] == f;
    FromLe32RoundTrip(fields[0]);
    FromLeIntRoundTrip(fields[0]);
    if |fields| > 1 {
      FromLeIntRoundTrip(fields[1]);
    }
    if |fields| > 2 {
      FromLeIntRoundTrip(fields[2]);
    }
  }

  /** Conversely, the bytes consumed are the encoding of the message decoded, if
      the package has no fields that the receiver ignores. */
  lemma EncodeDecode(stream: seq<byte>)
    requires Decodable(stream) && Sendable(Decode(stream).0)
    requires |ArrivedFields(stream[4..])| == |FieldsOf(Decode(stream).0)|
    ensures Encode(Decode(stream).0) + Decode(stream).1 == stream
  {
    var code, body := FromLeInt(stream), stream[4..];
    var payload := body[4..4 + FromLeInt(body)];
    PayloadOfFields(payload);
    FieldsOfFromFields(code, ArrivedFields(body));
    assert Encode(Decode(stream).0) == Package(code, payload);
    PackageOfFront(stream);
  }

  // ----- Streams

  function EncodeAll(ms: seq<Message>): seq<byte>
    requires forall i :: 0 <= i < |ms| ==> Sendable(ms[i])
  {
    if ms == [] then [] else Encode(ms[0]) + EncodeAll(ms[1..])
  }

  predicate AllDecodable(stream: seq<byte>)
    decreases |stream|
  {
    stream == [] || (Decodable(stream) && AllDecodable(Decode(stream).1))
  }

  function DecodeAll(stream: seq<byte>): seq<Message>
    requires AllDecodable(stream)
    decreases |stream|
  {
    if stream == [] then [] else [Decode(stream).0] + DecodeAll(Decode(stream).1)
  }

  /** A stream of messages is decoded into exactly the messages that were sent. */
  lemma {:induction false} DecodeAllEncodeAll(ms: seq<Message>)
    requires forall i :: 0 <= i < |ms| ==> Sendable(ms[i])
    ensures AllDecodable(EncodeAll(ms)) && DecodeAll(EncodeAll(ms)) == ms
  {
    if ms == [] {
    } else {
      DecodeAllEncodeAll(ms[1..]);
      DecodeEncode(ms[0], EncodeAll(ms[1..]));
    }
  }

  lemma {:induction false} EncodeAllAppend(ms: seq<Message>, m: Message)
    requires forall i :: 0 <= i < |ms| ==> Sendable(ms[i])
    requires Sendable(m)
    ensures EncodeAll(ms + [m]) == EncodeAll(ms) + Encode(m)
  {
    if ms == [] {
      assert (ms + [m])[1..] == [];
      assert EncodeAll(ms + [m]) == Encode(m) + [];
    } else {
      EncodeAllAppend(ms[1..], m);
      assert (ms + [m])[1..] == ms[1..] + [m];
      Associative(Encode(ms[0]), EncodeAll(ms[1..]), Encode(m));
    }
  }

  lemma Associative(a: seq<byte>, b: seq<byte>, c: seq<byte>)
    ensures a + (b + c) == a + b + c
  {
  }
}
