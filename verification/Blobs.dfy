/** Sending binary data as blob instructions (src/libguac/socket.c, protocol.c)
    and putting it together again (src/guacenc/instruction-blob.c,
    image-stream.c). */
module Blobs {
  import opened Basics
  import opened Unicode
  import opened Parser
  import opened Protocol
  import Base64

  const BLOB_MAX_LENGTH: nat := 6048
  const IMAGE_STREAM_INITIAL_LENGTH: nat := 4096

  /** The opcode "blob". */
  const BLOB: seq<Byte> := [98, 108, 111, 98]

  /** Stream indices are 32-bit integers. */
  const MAX_INDEX: nat := 0x8000_0000

  lemma {:induction false} PlainText(s: seq<Byte>)
    requires Base64.Plain(s)
    ensures CharCount(s) == |s| && EndsOnBoundary(s)
  {
    if s != [] {
      PlainText(s[1..]);
    }
  }

  function BlobElements(index: nat, data: seq<Byte>): seq<seq<Byte>> {
    [BLOB, Decimal(index), Base64.Encode(data)]
  }

  function BlobInstruction(index: nat, data: seq<Byte>): seq<Byte> {
    Instruction(BlobElements(index, data))
  }

  function BlobSize(data: seq<Byte>): nat {
    if |data| > BLOB_MAX_LENGTH then BLOB_MAX_LENGTH else |data|
  }

  /** The instructions that carry the data, in pieces of limited size. */
  function BlobStream(index: nat, data: seq<Byte>): seq<Byte>
    decreases |data|
  {
    if data == [] then []
    else
      var n := BlobSize(data);
      BlobInstruction(index, data[..n]) + BlobStream(index, data[n..])
  }

  lemma BlobStreamStep(index: nat, data: seq<Byte>)
    ensures data == [] ==> BlobStream(index, data) == []
    ensures data != [] ==> BlobStream(index, data) ==
                           BlobInstruction(index, data[..BlobSize(data)]) + BlobStream(index, data[BlobSize(data)..])
  {
  }

  predicate AllBytes(s: seq<int>) { forall i :: 0 <= i < |s| ==> 0 <= s[i] < 256 }

  lemma EncodedLength(data: seq<Byte>)
    ensures CharCount(Base64.Encode(data)) == (|data| + 2) / 3 * 4
    ensures EndsOnBoundary(Base64.Encode(data))
  {
    hide Base64.Encode, CharCount;
    Base64.EncodeIsPlain(data);
    PlainText(Base64.Encode(data));
  }

  lemma RestUnfolds(elements: seq<seq<Byte>>)
    requires elements != []
    ensures Rest(elements) == [COMMA] + Element(elements[0]) + Rest(elements[1..])
  {
  }

  lemma BlobOpcode()
    ensures Element(BLOB) == [52, DOT, 98, 108, 111, 98]
  {
    PlainText(BLOB);
    assert Decimal(4) == [52];
  }

  lemma NoRest()
    ensures Rest([]) == [SEMICOLON]
  {
  }

  /** A blob instruction spelled out. */
  lemma BlobText(index: nat, data: seq<Byte>)
    ensures BlobInstruction(index, data) ==
            [52, DOT, 98, 108, 111, 98, COMMA] + Element(Decimal(index)) + [COMMA] + Element(Base64.Encode(data)) + [SEMICOLON]
  {
    hide Base64.Encode, CharCount, Element, Rest;
    var es := BlobElements(index, data);
    var one: seq<seq<Byte>> := es[1..];
    var two: seq<seq<Byte>> := one[1..];
    BlobOpcode();
    RestUnfolds(one);
    RestUnfolds(two);
    NoRest();
    assert two[1..] == [];
    assert Element(BLOB) + [COMMA] == [52, DOT, 98, 108, 111, 98, COMMA];
  }

  /** A socket: everything its write handler has accepted, how much the handler
      accepts each time (anything negative is an error), and the bytes waiting
      for a full base64 group. */
  class Socket {
    var out: seq<Byte>
    var script: seq<int>
    var ready: seq<int>

    /** No write is an error. */
    ghost predicate Accepts()
      reads this
    {
      forall i :: 0 <= i < |script| ==> script[i] >= 0
    }

    constructor (script: seq<int>)
      ensures out == [] && ready == [] && this.script == script
    {
      out, ready, this.script := [], [], script;
    }

    /** The write handler; it may take only part of the data. */
    method Accept(data: seq<Byte>) returns (written: int)
      modifies this`out, this`script
      ensures -1 <= written <= |data|
      ensures written >= 0 ==> out == old(out) + data[..written]
      ensures |script| < old(|script|) || (old(script) == [] && script == [] && written == |data|)
      ensures written == -1 <==> old(script) != [] && old(script)[0] < 0
      ensures old(Accepts()) ==> Accepts()
    {
      if script == [] {
        written := |data|;
      } else {
        written := if script[0] < 0 then -1 else if script[0] > |data| then |data| else script[0];
        script := script[1..];
      }
      if written >= 0 {
        out := out + data[..written];
      }
    }

    /** guac_socket_write: write until everything is written. */
    method Write(data: seq<Byte>) returns (failed: bool)
      modifies this`out, this`script
      ensures !failed ==> out == old(out) + data
      ensures old(Accepts()) ==> Accepts() && !failed
    {
      var i := 0;
      while i < |data|
        invariant 0 <= i <= |data| && out == old(out) + data[..i]
        invariant old(Accepts()) ==> Accepts()
        decreases |script|, |data| - i
      {
        var written := Accept(data[i..]);
        if written == -1 {
          return true;
        }
        assert data[..i + written] == data[..i] + data[i..][..written];
        i := i + written;
      }
      assert data[..i] == data;
      failed := false;
    }

    /** __guac_socket_write_base64_triplet; a negative byte is a missing one. */
    method WriteTriplet(a: int, b: int, c: int) returns (failed: bool)
      requires 0 <= a < 256 && -1 <= b < 256 && -1 <= c < 256 && (b < 0 ==> c < 0)
      modifies this`out, this`script
      ensures !failed ==> out == old(out) + Base64.Group(if b < 0 then [a] else if c < 0 then [a, b] else [a, b, c])
      ensures old(Accepts()) ==> Accepts() && !failed
    {
      var o0 := Base64.Char(a / 4);
      var text: seq<Byte>;
      if b >= 0 {
        var o1 := Base64.Char(a % 4 * 16 + b / 16);
        if c >= 0 {
          text := [o0, o1, Base64.Char(b % 16 * 4 + c / 64), Base64.Char(c % 64)];
        } else {
          text := [o0, o1, Base64.Char(b % 16 * 4), Base64.PAD];
        }
      } else {
        text := [o0, Base64.Char(a % 4 * 16), Base64.PAD, Base64.PAD];
      }
      Base64.GroupUnfolds(if b < 0 then [a] else if c < 0 then [a, b] else [a, b, c]);
      failed := Write(text);
    }

    /** __guac_socket_write_base64_byte. */
    method WriteBase64Byte(buf: int) returns (failed: bool)
      requires |ready| < 3 && -1 <= buf < 256
      requires AllBytes(ready) || (|ready| == 2 && 0 <= ready[0] < 256 && ready[1] == -1 && buf == -1)
      requires buf == -1 ==> ready != []
      modifies this
      ensures !failed && old(|ready|) < 2 ==> out == old(out) && ready == old(ready) + [buf]
      ensures !failed && old(|ready|) == 2 ==> ready == []
      ensures !failed && old(|ready|) == 2 ==>
                out == old(out) + Base64.Group(if old(ready)[1] < 0 then [old(ready)[0]]
                                               else if buf < 0 then [old(ready)[0], old(ready)[1]]
                                               else [old(ready)[0], old(ready)[1], buf])
      ensures old(Accepts()) ==> Accepts() && !failed
    {
      failed := false;
      ready := ready + [buf];
      if |ready| == 3 {
        failed := WriteTriplet(ready[0], ready[1], ready[2]);
        if failed {
          return;
        }
        ready := [];
      }
    }

    /** guac_socket_write_base64: whole groups of three bytes are written, the
        rest waits. */
    method WriteBase64(data: seq<Byte>) returns (failed: bool)
      requires |ready| < 3 && AllBytes(ready)
      modifies this
      ensures !failed ==> |ready| < 3 && AllBytes(ready)
      ensures !failed ==> exists whole: seq<Byte> ::
                && |whole| % 3 == 0 && whole + ready == old(ready) + data
                && out == old(out) + Base64.Encode(whole)
      ensures old(Accepts()) ==> Accepts() && !failed
    {
      hide Base64.Encode, Base64.Group;
      ghost var whole: seq<Byte> := [];
      Base64.EncodeNothing();
      var i := 0;
      while i < |data|
        invariant 0 <= i <= |data| && |ready| < 3 && AllBytes(ready)
        invariant |whole| % 3 == 0 && whole + ready == old(ready) + data[..i]
        invariant out == old(out) + Base64.Encode(whole)
        invariant old(Accepts()) ==> Accepts()
      {
        ghost var waiting := ready;
        failed := WriteBase64Byte(data[i]);
        if failed {
          return;
        }
        assert old(ready) + data[..i + 1] == whole + waiting + [data[i]];
        if |waiting| == 2 {
          ghost var group: seq<Byte> := [waiting[0], waiting[1], data[i]];
          Base64.EncodeWhole(whole, group);
          Base64.EncodeGroup(group);
          whole := whole + group;
        }
        i := i + 1;
      }
      failed := false;
      assert data[..i] == data;
    }

    /** guac_socket_flush_base64: what waits is written as a padded group. */
    method FlushBase64() returns (failed: bool)
      requires |ready| < 3 && AllBytes(ready)
      modifies this
      ensures !failed ==> ready == [] && out == old(out) + Base64.Encode(old(ready))
      ensures old(Accepts()) ==> Accepts() && !failed
    {
      hide Base64.Encode, Base64.Group;
      ghost var waiting: seq<Byte> := ready;
      if waiting == [] { Base64.EncodeNothing(); } else { Base64.EncodeGroup(waiting); }
      failed := false;
      while |ready| > 0
        invariant |ready| < 3
        invariant ready != [] ==> out == old(out) && |ready| >= |waiting| >= 1
        invariant ready != [] ==> forall k :: 0 <= k < |waiting| ==> ready[k] == waiting[k]
        invariant forall k :: |waiting| <= k < |ready| ==> ready[k] == -1
        invariant ready == [] ==> out == old(out) + Base64.Encode(waiting)
        invariant old(Accepts()) ==> Accepts() && !failed
        decreases if ready == [] then 0 else 3 - |ready|
      {
        assert waiting == if |waiting| == 1 then [ready[0]] else [ready[0], ready[1]];
        failed := WriteBase64Byte(-1);
        if failed {
          return;
        }
      }
    }

    /** __guac_socket_write_length_string. */
    method WriteElement(e: seq<Byte>) returns (failed: bool)
      modifies this`out, this`script
      ensures !failed ==> out == old(out) + Element(e)
      ensures old(Accepts()) ==> Accepts() && !failed
    {
      hide CharCount, Decimal;
      var count := Strlen(e);
      failed := Write(Decimal(count));
      if failed { return; }
      failed := Write([DOT]);
      if failed { return; }
      failed := Write(e);
      assert old(out) + Element(e) == old(out) + Decimal(count) + [DOT] + e;
    }

    /** Write and flush base64: together they write the encoding of the data. */
    method WriteAllBase64(data: seq<Byte>) returns (failed: bool)
      requires ready == []
      modifies this
      ensures !failed ==> ready == [] && out == old(out) + Base64.Encode(data)
      ensures old(Accepts()) ==> Accepts() && !failed
    {
      hide Base64.Encode;
      failed := WriteBase64(data);
      if failed { return; }
      ghost var whole: seq<Byte> :|
        |whole| % 3 == 0 && whole + ready == [] + data && out == old(out) + Base64.Encode(whole);
      ghost var rest: seq<Byte> := ready;
      Base64.EncodeWhole(whole, rest);
      assert whole + rest == data;
      failed := FlushBase64();
    }

    /** The data element of a blob: the announced length is computed from the
        number of bytes, and is the number of characters written. */
    method WriteBase64Element(data: seq<Byte>) returns (failed: bool)
      requires ready == []
      modifies this
      ensures !failed ==> ready == [] && out == old(out) + Element(Base64.Encode(data))
      ensures old(Accepts()) ==> Accepts() && !failed
    {
      hide Base64.Encode, CharCount, Decimal;
      var base64Length := (|data| + 2) / 3 * 4;
      EncodedLength(data);
      failed := Write(Decimal(base64Length));
      if failed { return; }
      failed := Write([DOT]);
      if failed { return; }
      failed := WriteAllBase64(data);
    }

    /** guac_protocol_send_blob. */
    method SendBlob(index: nat, data: seq<Byte>) returns (failed: bool)
      requires ready == []
      modifies this
      ensures !failed ==> ready == [] && out == old(out) + BlobInstruction(index, data)
      ensures old(Accepts()) ==> Accepts() && !failed
    {
      hide Base64.Encode, Decimal, Element, BlobInstruction;
      ghost var text := Base64.Encode(data);
      failed := Write([52, DOT, 98, 108, 111, 98, COMMA]);
      if failed { return; }
      failed := WriteElement(Decimal(index));
      if failed { return; }
      failed := Write([COMMA]);
      if failed { return; }
      failed := WriteBase64Element(data);
      if failed { return; }
      failed := Write([SEMICOLON]);
      if failed { return; }
      BlobText(index, data);
      ghost var parts := [52, DOT, 98, 108, 111, 98, COMMA] + Element(Decimal(index)) + [COMMA] + Element(text) + [SEMICOLON];
      assert out == old(out) + parts;
    }

    /** guac_protocol_send_blobs. */
    method SendBlobs(index: nat, data: seq<Byte>) returns (failed: bool)
      requires ready == []
      modifies this
      ensures !failed ==> ready == [] && out == old(out) + BlobStream(index, data)
      ensures old(Accepts()) ==> Accepts() && !failed
    {
      hide BlobInstruction, BlobStream;
      failed := false;
      var rest := data;
      ghost var sent: seq<Byte> := [];
      while |rest| > 0 && !failed
        invariant !failed ==> ready == [] && out == old(out) + sent && sent + BlobStream(index, rest) == BlobStream(index, data)
        invariant old(Accepts()) ==> Accepts() && !failed
        decreases |rest|
      {
        var blobSize := |rest|;
        if blobSize > BLOB_MAX_LENGTH {
          blobSize := BLOB_MAX_LENGTH;
        }
        BlobStreamStep(index, rest);
        failed := SendBlob(index, rest[..blobSize]);
        sent := sent + BlobInstruction(index, rest[..blobSize]);
        rest := rest[blobSize..];
      }
      BlobStreamStep(index, rest);
    }
  }

  // ---------------------------------------------------------------- receiving

  /** A blob instruction parses to its three elements. */
  lemma BlobParses(index: nat, data: seq<Byte>, t: seq<Byte>)
    requires |data| <= BLOB_MAX_LENGTH && index < MAX_INDEX
    ensures Parse(INIT, BlobInstruction(index, data) + t) ==
            Done(BlobElements(index, data), |BlobInstruction(index, data)|)
  {
    hide Parse, Base64.Encode, CharCount, EndsOnBoundary, Decimal, Instruction;
    EncodedLength(data);
    PlainText(BLOB);
    PlainText(Decimal(index));
    TenDigits();
    DecimalIsShort(index, 10);
    InstructionParses(BlobElements(index, data), t);
  }

  /** What a receiver makes of a stream of instructions: the decoded data of the
      blobs at its front, in order. */
  function Reassemble(stream: seq<Byte>): seq<Byte>
    decreases |stream|
  {
    var o := Parse(INIT, stream);
    if o.Done? && |o.elements| == 3 && o.elements[0] == BLOB && 0 < o.used <= |stream| then
      Base64.Decode(o.elements[2]) + Reassemble(stream[o.used..])
    else []
  }

  lemma EmptyReassembles()
    ensures Reassemble([]) == []
  {
  }

  /** Data sent as blobs is put together again exactly. */
  lemma {:induction false} BlobsReassemble(index: nat, data: seq<Byte>)
    requires index < MAX_INDEX
    ensures Reassemble(BlobStream(index, data)) == data
    decreases |data|
  {
    hide Parse, Base64.Encode, Base64.Decode, Decimal, BlobInstruction, BlobStream;
    BlobStreamStep(index, data);
    if data == [] {
      EmptyReassembles();
    } else {
      var n := BlobSize(data);
      var rest := BlobStream(index, data[n..]);
      BlobParses(index, data[..n], rest);
      BlobText(index, data[..n]);
      var stream := BlobInstruction(index, data[..n]) + rest;
      assert stream[|BlobInstruction(index, data[..n])|..] == rest;
      Base64.DecodeOfEncode(data[..n]);
      BlobsReassemble(index, data[n..]);
      assert data == data[..n] + data[n..];
    }
  }

  /** The growing buffer of an image stream. */
  class ImageStream {
    var buffer: array<Byte>
    var length: nat

    ghost predicate Valid()
      reads this
    {
      length <= buffer.Length
    }

    ghost function Contents(): seq<Byte>
      requires Valid()
      reads this, buffer
    {
      buffer[..length]
    }

    constructor ()
      ensures Valid() && Contents() == [] && fresh(buffer) && buffer.Length == IMAGE_STREAM_INITIAL_LENGTH
    {
      buffer := new Byte[IMAGE_STREAM_INITIAL_LENGTH](_ => 0);
      length := 0;
    }

    /** guacenc_image_stream_receive. */
    method Receive(data: seq<Byte>)
      requires Valid()
      modifies this, buffer
      ensures Valid() && Contents() == old(Contents()) + data
      ensures buffer == old(buffer) || fresh(buffer)
    {
      if buffer.Length - length < |data| {
        var newMaxLength := buffer.Length * 2 + |data|;
        var larger := new Byte[newMaxLength](_ => 0);
        forall k | 0 <= k < buffer.Length {
          larger[k] := buffer[k];
        }
        buffer := larger;
      }
      forall k | 0 <= k < |data| {
        buffer[length + k] := data[k];
      }
      length := length + |data|;
    }
  }

  /** Decoding from the start of the third element of a finished instruction
      stops at its end. */
  lemma ThirdElement(parser: GuacParser)
    requires parser.state == CompleteState && parser.Layout(parser.unparsedStart) && |parser.Elements()| >= 3
    ensures 0 in parser.buffer[parser.elementv[2]..]
    ensures Base64.Decode(parser.buffer[parser.elementv[2]..]) == Base64.Decode(parser.Elements()[2])
    ensures parser.elementv[2] + |Base64.Digits(parser.buffer[parser.elementv[2]..])| <= parser.unparsedStart
  {
    hide Base64.Digits, Base64.Bytes;
    var start, e := parser.elementv[2], parser.ends[2];
    var text, after := parser.buffer[start..e], parser.buffer[e + 1..];
    assert parser.buffer[start..] == text + [0] + after;
    assert parser.Elements()[2] == text;
    Base64.NulEndsText(text, after);
  }

  /** guacenc_handle_blob: decode the third element where it lies in the parser's
      buffer and append the result to the image stream. */
  method HandleBlob(parser: GuacParser, image: ImageStream)
    requires parser.Valid() && parser.state == CompleteState && parser.Layout(parser.unparsedStart)
    requires |parser.Elements()| >= 3 && image.Valid() && image.buffer != parser.buffer
    modifies parser.buffer, image, image.buffer
    ensures parser.Valid() && parser.Unparsed() == old(parser.Unparsed())
    ensures image.Valid() && image.Contents() == old(image.Contents()) + Base64.Decode(old(parser.Elements())[2])
    ensures image.buffer == old(image.buffer) || fresh(image.buffer)
  {
    hide Base64.Decode, Base64.Digits, ElementsOf, NulAt;
    var start := parser.elementv[2];
    ThirdElement(parser);
    var length := Base64.DecodeInPlace(parser.buffer, start);
    image.Receive(parser.buffer[start..start + length]);
  }

  /** No blob instruction comes near the size of the parser's buffer. */
  lemma BlobIsShort(index: nat, data: seq<Byte>)
    requires |data| <= BLOB_MAX_LENGTH && index < MAX_INDEX
    ensures |BlobInstruction(index, data)| <= BUFFER_SIZE
  {
    hide Base64.Encode, CharCount, BlobInstruction, Decimal;
    EncodedLength(data);
    TenDigits();
    DecimalIsShort(index, 10);
    PlainText(Decimal(index));
    DecimalIsShort(|Decimal(index)|, 5);
    DecimalIsShort(CharCount(Base64.Encode(data)), 5);
    BlobText(index, data);
  }

  /** Reading when a blob instruction is next: only running out of data stops it,
      and a socket that delivers does not. */
  method ReadBlob(parser: GuacParser, source: Source, ghost index: nat, ghost data: seq<Byte>, ghost rest: seq<Byte>)
    returns (result: ReadResult)
    requires parser.Valid() && parser.buffer.Length == BUFFER_SIZE
    requires |data| <= BLOB_MAX_LENGTH && index < MAX_INDEX
    requires parser.Unparsed() + source.pending == BlobInstruction(index, data) + rest
    modifies parser, parser.buffer, source
    ensures result in {Success, NoData}
    ensures result == Success ==>
              && parser.Valid() && parser.state == CompleteState && parser.Layout(parser.unparsedStart)
              && parser.Elements() == BlobElements(index, data)
              && parser.Unparsed() + source.pending == rest
    ensures old(source.Delivers()) ==> source.Delivers() && result == Success
  {
    hide Parse, Base64.Encode, BlobInstruction, Decimal, ElementsOf, NulAt;
    BlobParses(index, data, rest);
    ghost var stream, size := BlobInstruction(index, data) + rest, |BlobInstruction(index, data)|;
    assert stream[size..] == rest && stream[..|stream|] == stream;
    BlobIsShort(index, data);
    if |stream| >= BUFFER_SIZE {
      BlobParses(index, data, rest[..BUFFER_SIZE - size]);
      assert stream[..BUFFER_SIZE] == BlobInstruction(index, data) + rest[..BUFFER_SIZE - size];
    }
    var r, used := parser.Read(source);
    result := r;
  }

  /** Reads blob instructions and hands them to an image stream, one read for
      each blob the data was sent in. Unless the socket stops delivering, the
      image stream receives exactly the data, whatever sizes the bytes arrived
      in. */
  method ReceiveBlobs(parser: GuacParser, source: Source, image: ImageStream, ghost index: nat, data: seq<Byte>)
    returns (result: ReadResult)
    requires parser.Valid() && parser.buffer.Length == BUFFER_SIZE
    requires image.Valid() && image.buffer != parser.buffer && index < MAX_INDEX
    requires parser.Unparsed() + source.pending == BlobStream(index, data)
    modifies parser, parser.buffer, source, image, image.buffer
    ensures result in {Success, NoData}
    ensures result == Success ==> image.Valid() && image.Contents() == old(image.Contents()) + data
    ensures old(source.Delivers()) ==> result == Success
  {
    hide Parse, Base64.Decode, Base64.Encode, BlobInstruction, BlobStream, GuacParser.Layout;
    var rest := data;
    ghost var received: seq<Byte> := [];
    while rest != []
      invariant parser.Valid() && image.Valid() && image.buffer != parser.buffer
      invariant image.buffer == old(image.buffer) || fresh(image.buffer)
      invariant parser.Unparsed() + source.pending == BlobStream(index, rest)
      invariant received + rest == data && image.Contents() == old(image.Contents()) + received
      invariant old(source.Delivers()) ==> source.Delivers()
      decreases |rest|
    {
      var n := BlobSize(rest);
      BlobStreamStep(index, rest);
      result := ReadBlob(parser, source, index, rest[..n], BlobStream(index, rest[n..]));
      if result != Success {
        return;
      }
      HandleBlob(parser, image);
      Base64.DecodeOfEncode(rest[..n]);
      received := received + rest[..n];
      rest := rest[n..];
    }
    assert received == data;
    result := Success;
  }

  /** From end to end: data sent as blobs, in writes and reads of any sizes, is the
      data received. Sending fails only on a write error, and receiving only if the
      socket stops delivering. */
  method Transmit(index: nat, data: seq<Byte>, writes: seq<int>, reads': seq<int>)
    returns (sent: bool, result: ReadResult, image: ImageStream)
    requires index < MAX_INDEX
    ensures (forall i :: 0 <= i < |writes| ==> writes[i] >= 0) ==> sent
    ensures sent ==> result in {Success, NoData}
    ensures sent && (forall i :: 0 <= i < |reads'| ==> reads'[i] > 0) && |reads'| >= |BlobStream(index, data)| ==>
              result == Success
    ensures sent && result == Success ==> image.Valid() && image.Contents() == data
  {
    hide BlobStream;
    image := new ImageStream();
    var socket := new Socket(writes);
    var failed := socket.SendBlobs(index, data);
    if failed {
      return false, NoData, image;
    }
    sent := true;
    var source := new Source(socket.out, reads');
    var parser := new GuacParser(BUFFER_SIZE);
    assert parser.Unparsed() + source.pending == BlobStream(index, data);
    result := ReceiveBlobs(parser, source, image, index, data);
  }
}
