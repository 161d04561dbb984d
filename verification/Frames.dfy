/** The frame both file formats share: a length prefix, a checksum over the
    body, and the body. Log records and snapshot entries differ only in what
    the body holds and in how small it may be. */
module Frames {
  import opened Base
  import opened LittleEndian

  const LENGTH_SIZE := 4
  const CRC_SIZE := 4

  /** What the reader sees at an offset, before it interprets the body. */
  datatype Frame =
    | Short                       // fewer bytes left than a length prefix
    | Overrun                     // too small to be a record, or past the end of the file
    | Corrupt(end: nat)           // checksum mismatch
    | Framed(body: Bytes, end: nat)

  predicate Fits(body: Bytes) { CRC_SIZE + |body| < 0x1_0000_0000 }

  function EncodeFrame(p: Platform, body: Bytes): (r: Bytes)
    requires Fits(body)
    ensures |r| == LENGTH_SIZE + CRC_SIZE + |body|
  {
    Put32(CRC_SIZE + |body|) + Put32(p.crc(body)) + body
  }

  function ReadFrame(p: Platform, file: Bytes, offset: nat, smallest: nat): (r: Frame)
    requires offset <= |file|
    ensures r.Framed? ==> offset + LENGTH_SIZE + CRC_SIZE + |r.body| == r.end <= |file| && |r.body| >= smallest
  {
    if |file| - offset < LENGTH_SIZE then Short
    else
      var length := Get32(file[offset..offset + LENGTH_SIZE]);
      var end := offset + LENGTH_SIZE + length;
      if length < CRC_SIZE + smallest || end > |file| then Overrun
      else
        var payload := file[offset + LENGTH_SIZE..end];
        var body := payload[CRC_SIZE..];
        if p.crc(body) != Get32(payload[..CRC_SIZE]) then Corrupt(end) else Framed(body, end)
  }

  /** A written frame reads back as its body, wherever it sits in a file. */
  lemma ReadWritten(p: Platform, file: Bytes, offset: nat, body: Bytes, smallest: nat)
    requires Fits(body) && |body| >= smallest
    requires offset + |EncodeFrame(p, body)| <= |file|
    requires file[offset..offset + |EncodeFrame(p, body)|] == EncodeFrame(p, body)
    ensures ReadFrame(p, file, offset, smallest) == Framed(body, offset + |EncodeFrame(p, body)|)
  {
    var frame := EncodeFrame(p, body);
    var end := offset + |frame|;
    RoundTrip32(CRC_SIZE + |body|);
    RoundTrip32(p.crc(body));
    assert file[offset..offset + LENGTH_SIZE] == frame[..LENGTH_SIZE] == Put32(CRC_SIZE + |body|);
    assert file[offset + LENGTH_SIZE..end] == frame[LENGTH_SIZE..] == Put32(p.crc(body)) + body;
  }

  /** Every proper prefix of a frame that ends the file is recognised as torn. */
  lemma ReadTorn(p: Platform, file: Bytes, offset: nat, body: Bytes, smallest: nat)
    requires Fits(body) && offset <= |file| < offset + |EncodeFrame(p, body)|
    requires file[offset..] == EncodeFrame(p, body)[..|file| - offset]
    ensures ReadFrame(p, file, offset, smallest) in {Short, Overrun}
  {
    if |file| - offset >= LENGTH_SIZE {
      var frame := EncodeFrame(p, body);
      RoundTrip32(CRC_SIZE + |body|);
      assert file[offset..offset + LENGTH_SIZE] == file[offset..][..LENGTH_SIZE]
          == frame[..LENGTH_SIZE] == Put32(CRC_SIZE + |body|);
    }
  }

  /** Whatever reads as a frame is byte for byte the frame of its body. */
  lemma ReadCanonical(p: Platform, file: Bytes, offset: nat, smallest: nat)
    requires offset <= |file|
    requires ReadFrame(p, file, offset, smallest).Framed?
    ensures
      var r := ReadFrame(p, file, offset, smallest);
      Fits(r.body) && file[offset..r.end] == EncodeFrame(p, r.body)
  {
    var r := ReadFrame(p, file, offset, smallest);
    var lengthBytes := file[offset..offset + LENGTH_SIZE];
    var payload := file[offset + LENGTH_SIZE..r.end];
    Canonical32(lengthBytes);
    Canonical32(payload[..CRC_SIZE]);
    assert payload == payload[..CRC_SIZE] + r.body;
    assert file[offset..r.end] == lengthBytes + payload;
  }

  /** A complete frame whose checksum is not that of its body. */
  function BadFrame(body: Bytes, sum: uint32): (r: Bytes)
    requires Fits(body)
    ensures |r| == LENGTH_SIZE + CRC_SIZE + |body|
  {
    Put32(CRC_SIZE + |body|) + Put32(sum) + body
  }

  /** It is recognised as damaged, wherever it sits, and where it ends. */
  lemma ReadBad(p: Platform, file: Bytes, offset: nat, body: Bytes, sum: uint32, smallest: nat)
    requires Fits(body) && |body| >= smallest && sum != p.crc(body)
    requires offset + |BadFrame(body, sum)| <= |file|
    requires file[offset..offset + |BadFrame(body, sum)|] == BadFrame(body, sum)
    ensures ReadFrame(p, file, offset, smallest) == Corrupt(offset + LENGTH_SIZE + CRC_SIZE + |body|)
  {
    var frame := BadFrame(body, sum);
    var end := offset + |frame|;
    RoundTrip32(CRC_SIZE + |body|);
    RoundTrip32(sum);
    assert file[offset..offset + LENGTH_SIZE] == frame[..LENGTH_SIZE] == Put32(CRC_SIZE + |body|);
    assert file[offset + LENGTH_SIZE..end] == frame[LENGTH_SIZE..] == Put32(sum) + body;
  }

  /** A length prefix no record can have here: too small, or past the end of the file. */
  lemma ReadBadLength(p: Platform, file: Bytes, offset: nat, length: uint32, smallest: nat)
    requires offset + LENGTH_SIZE <= |file| && file[offset..offset + LENGTH_SIZE] == Put32(length)
    requires length < CRC_SIZE + smallest || offset + LENGTH_SIZE + length > |file|
    ensures ReadFrame(p, file, offset, smallest) == Overrun
  {
    RoundTrip32(length);
  }
}
