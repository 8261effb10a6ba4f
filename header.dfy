/** The image header: the 13-byte IHDR payload (section 11.2.2 of the PNG
    specification) and `process_ihdr`, which decodes it. */
module Header {
  import opened Bytes
  import opened Chunks

  /** `IHDRInfo`: the header's seven fields, in payload order. */
  datatype IhdrInfo = IhdrInfo(
    width: U32,
    height: U32,
    bitDepth: Byte,
    colorType: Byte,
    compressionMethod: Byte,
    filterMethod: Byte,
    interlaceMethod: Byte)

  /** `process_ihdr`'s length assertion failed: the payload is not 13 bytes. */
  datatype HeaderError = BadHeaderLength(length: nat)

  /** The payload that describes `info`: width and height as big-endian
      words, then the five one-byte fields. */
  function EncodeIhdr(info: IhdrInfo): (bytes: seq<Byte>)
    ensures |bytes| == 13
  {
    U32Bytes(info.width) + U32Bytes(info.height)
      + [info.bitDepth, info.colorType, info.compressionMethod, info.filterMethod, info.interlaceMethod]
  }

  /** `process_ihdr`: asserts a 13-byte payload, then reads width and height
      through the word reader and the five byte fields after them. The chunk's
      type is not looked at. A successful decode accounts for every payload
      byte: encoding the result gives the payload back. */
  function ProcessIhdr(ch: Chunk): (r: Result<IhdrInfo, HeaderError>)
    ensures r.Ok? <==> |ch.data| == 13
    ensures r.Err? ==> r.error == BadHeaderLength(|ch.data|)
    ensures r.Ok? ==> EncodeIhdr(r.value) == ch.data
  {
    if |ch.data| != 13 then Err(BadHeaderLength(|ch.data|))
    else
      var d := ch.data;
      BigEndian32Injective(d, 0);
      BigEndian32Injective(d, 4);
      assert d == d[0..4] + d[4..8] + [d[8], d[9], d[10], d[11], d[12]];
      Ok(IhdrInfo(BigEndian32(d, 0), BigEndian32(d, 4), d[8], d[9], d[10], d[11], d[12]))
  }

  /** Header round trip: the payload written for any header, in a chunk of
      any type, decodes to that header. */
  lemma ProcessIhdrEncoded(typ: U32, info: IhdrInfo)
    ensures ProcessIhdr(Chunk(typ, EncodeIhdr(info))) == Ok(info)
  {
    var d := EncodeIhdr(info);
    assert d[0..4] == U32Bytes(info.width);
    assert d[4..8] == U32Bytes(info.height);
    BigEndian32OfBytes(d, 0, info.width);
    BigEndian32OfBytes(d, 4, info.height);
  }
}
