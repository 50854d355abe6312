/** utility.go's WAV writer: a RIFF/WAVE file with one PCM "fmt " chunk and
    one "data" chunk, every number little-endian.

    Go's `write` appends the bytes of a []byte, or the little-endian bytes of
    a fixed-size integer, to a writer; here every writer is the byte
    sequence built so far, and its retry loop over short writes and its
    panics on I/O errors are left out. `writeChunk`'s panic on a bad chunk
    id, which `WriteData` recovers into its error, is an `Err` value.
 */
module Riff {
  import opened Outcomes

  newtype byte = x: int | 0 <= x < 0x100
  newtype uint16 = x: int | 0 <= x < 0x1_0000
  newtype uint32 = x: int | 0 <= x < 0x1_0000_0000

  /** Go's conversion of an int to uint32: the value modulo 2^32. */
  function Wrap32(n: int): uint32 {
    (n % 0x1_0000_0000) as uint32
  }

  /** Go's conversion of an int to uint16: the value modulo 2^16. */
  function Wrap16(n: int): uint16 {
    (n % 0x1_0000) as uint16
  }

  /** The 16-bit number stored little-endian at `b[at]`, `b[at+1]`. */
  function U16At(b: seq<byte>, at: nat): uint16
    requires at + 2 <= |b|
  {
    (b[at] as int + 0x100 * b[at + 1] as int) as uint16
  }

  /** The 32-bit number stored little-endian at `b[at]` .. `b[at+3]`. */
  function U32At(b: seq<byte>, at: nat): uint32
    requires at + 4 <= |b|
  {
    (b[at] as int + 0x100 * b[at + 1] as int + 0x1_0000 * b[at + 2] as int
      + 0x100_0000 * b[at + 3] as int) as uint32
  }

  /** `binary.Write` of a uint16 with `binary.LittleEndian`. */
  function LE16(v: uint16): (b: seq<byte>)
    ensures |b| == 2 && U16At(b, 0) == v
  {
    [(v % 0x100) as byte, (v / 0x100) as byte]
  }

  /** `binary.Write` of a uint32 with `binary.LittleEndian`: the low byte
      first, then each next byte of the value shifted right by 8. */
  function LE32(v: uint32): (b: seq<byte>)
    ensures |b| == 4 && U32At(b, 0) == v
  {
    var n := v as int;
    var q1 := n / 0x100;
    var q2 := q1 / 0x100;
    var q3 := q2 / 0x100;
    Digits32(n, q1, q2, q3);
    [(n % 0x100) as byte, (q1 % 0x100) as byte, (q2 % 0x100) as byte, q3 as byte]
  }

  /** Splitting a 32-bit number into its four bytes and putting them back
      together gives the number. */
  lemma Digits32(n: int, q1: int, q2: int, q3: int)
    requires 0 <= n < 0x1_0000_0000
    requires q1 == n / 0x100 && q2 == q1 / 0x100 && q3 == q2 / 0x100
    ensures 0 <= q3 < 0x100
    ensures n % 0x100 + 0x100 * (q1 % 0x100) + 0x1_0000 * (q2 % 0x100) + 0x100_0000 * q3 == n
  {
    assert n == 0x100 * q1 + n % 0x100;
    assert q1 == 0x100 * q2 + q1 % 0x100;
    assert q2 == 0x100 * q3 + q2 % 0x100;
  }

  /** The bytes of a string of ASCII characters, as `[]byte(s)` gives them. */
  function Ascii(s: string): (b: seq<byte>)
    requires forall i :: 0 <= i < |s| ==> s[i] as int < 0x80
    ensures |b| == |s|
  {
    seq(|s|, i requires 0 <= i < |s| => s[i] as int as byte)
  }

  /** The `File` record: what `writeFmt` writes into the "fmt " chunk. */
  datatype File = File(sampleRate: uint32, significantBits: uint16, channels: uint16)

  /** utility.go:70, evaluated in uint32 as Go does: each product wraps
      modulo 2^32 before the division by 8. */
  function ByteRate(f: File): uint32 {
    Wrap32(Wrap32(f.channels as int * f.sampleRate as int) as int * f.significantBits as int) / 8
  }

  /** utility.go:71, evaluated in uint16: (bits / 8) * channels modulo 2^16. */
  function BlockAlign(f: File): uint16 {
    Wrap16((f.significantBits / 8) as int * f.channels as int)
  }

  /** The PCM format tag `writeFmt` writes first. */
  const PcmFormat: uint16 := 1

  /** `b[s..s+|p|]` holds `p`, so a number read at offset `o` of `p` is the
      number read at `s + o` of `b`. */
  lemma ReadInside(b: seq<byte>, s: nat, p: seq<byte>, o: nat)
    requires s + |p| <= |b| && b[s..s + |p|] == p
    ensures o + 2 <= |p| ==> U16At(b, s + o) == U16At(p, o)
    ensures o + 4 <= |p| ==> U32At(b, s + o) == U32At(p, o)
  {
    if o + 2 <= |p| {
      assert b[s + o] == p[o] && b[s + o + 1] == p[o + 1];
    }
    if o + 4 <= |p| {
      assert b[s + o + 2] == p[o + 2] && b[s + o + 3] == p[o + 3];
    }
  }

  /** The 16-byte body of the "fmt " chunk. */
  function FmtPayload(f: File): (p: seq<byte>)
    ensures |p| == 16
    ensures U16At(p, 0) == PcmFormat
    ensures U16At(p, 2) == f.channels
    ensures U32At(p, 4) == f.sampleRate
    ensures U32At(p, 8) == ByteRate(f)
    ensures U16At(p, 12) == BlockAlign(f)
    ensures U16At(p, 14) == f.significantBits
  {
    var p := LE16(PcmFormat) + LE16(f.channels) + LE32(f.sampleRate) + LE32(ByteRate(f))
      + LE16(BlockAlign(f)) + LE16(f.significantBits);
    ReadInside(p, 0, LE16(PcmFormat), 0);
    ReadInside(p, 2, LE16(f.channels), 0);
    ReadInside(p, 4, LE32(f.sampleRate), 0);
    ReadInside(p, 8, LE32(ByteRate(f)), 0);
    ReadInside(p, 12, LE16(BlockAlign(f)), 0);
    ReadInside(p, 14, LE16(f.significantBits), 0);
    p
  }

  /** `writeChunk`: a chunk id other than four bytes is refused before
      anything is written; otherwise the id, the data length as uint32
      (modulo 2^32), then the data. */
  function WriteChunk(id: seq<byte>, data: seq<byte>): (r: Result<seq<byte>>)
    ensures r.Err? <==> |id| != 4
    ensures r.Err? ==> r.failure == InvalidChunkId
    ensures r.Ok? ==> && |r.value| == 8 + |data|
                      && r.value[..4] == id
                      && U32At(r.value, 4) == Wrap32(|data|)
                      && r.value[8..] == data
  {
    if |id| != 4 then Err(InvalidChunkId)
    else
      var c := id + LE32(Wrap32(|data|)) + data;
      ReadInside(c, 4, LE32(Wrap32(|data|)), 0);
      Ok(c)
  }

  /** `writeFmt`: the "fmt " chunk, 24 bytes; its id is fixed, so it never fails. */
  function WriteFmt(f: File): (r: Result<seq<byte>>)
    ensures r.Ok? && |r.value| == 24
    ensures r.value[..4] == Ascii("fmt ") && U32At(r.value, 4) == 16
    ensures r.value[8..] == FmtPayload(f)
  {
    WriteChunk(Ascii("fmt "), FmtPayload(f))
  }

  /** `WriteData`: "RIFF", the length of the chunks that follow "WAVE" as
      uint32, "WAVE", the "fmt " chunk, the "data" chunk. Both chunk ids
      have four bytes, so the error it recovers never arises. */
  function WriteData(f: File, data: seq<byte>): (r: Result<seq<byte>>)
    ensures r.Ok? && |r.value| == 44 + |data|
  {
    var fmtChunk := WriteFmt(f).value;
    var dataChunk := WriteChunk(Ascii("data"), data).value;
    var body := fmtChunk + dataChunk;
    Ok(Ascii("RIFF") + LE32(Wrap32(|body|)) + Ascii("WAVE") + body)
  }

  /** The fields of a canonical 44-byte WAV header, and the samples after it. */
  datatype Wav = Wav(riffSize: uint32, format: uint16, channels: uint16, sampleRate: uint32,
                     byteRate: uint32, blockAlign: uint16, bits: uint16, dataSize: uint32,
                     samples: seq<byte>)

  /** A reader for the files `WriteData` writes: it checks the four chunk
      tags and the fmt chunk size and reads the header fields at their
      fixed offsets. */
  function DecodeWav(b: seq<byte>): Result<Wav> {
    if |b| < 44 then Err(IndexOutOfRange)
    else if b[..4] != Ascii("RIFF") || b[8..12] != Ascii("WAVE") || b[12..16] != Ascii("fmt ")
         || U32At(b, 16) != 16 || b[36..40] != Ascii("data") then Err(InvalidChunkId)
    else Ok(Wav(U32At(b, 4), U16At(b, 20), U16At(b, 22), U32At(b, 24), U32At(b, 28),
                U16At(b, 32), U16At(b, 34), U32At(b, 40), b[44..]))
  }

  /** Where `WriteData` puts its parts: "RIFF" and its size at 0, "WAVE"
      at 8, the fmt chunk at 12 and the data chunk at 36. */
  lemma DataFileLayout(f: File, data: seq<byte>)
    ensures var file := WriteData(f, data).value;
      && |file| == 44 + |data|
      && file[..4] == Ascii("RIFF")
      && U32At(file, 4) == Wrap32(32 + |data|)
      && file[8..12] == Ascii("WAVE")
      && file[12..36] == WriteFmt(f).value
      && file[36..] == WriteChunk(Ascii("data"), data).value
  {
    var fmtChunk := WriteFmt(f).value;
    var dataChunk := WriteChunk(Ascii("data"), data).value;
    var body := fmtChunk + dataChunk;
    var size := LE32(Wrap32(|body|));
    var file := WriteData(f, data).value;
    assert file == Ascii("RIFF") + size + Ascii("WAVE") + body;
    assert file[4..8] == size;
    ReadInside(file, 4, size, 0);
    assert file[12..] == body;
  }

  /** A fmt chunk at offset 12 shows its tag, its size and every format field. */
  lemma FmtChunkAt(file: seq<byte>, f: File)
    requires 36 <= |file| && file[12..36] == WriteFmt(f).value
    ensures file[12..16] == Ascii("fmt ") && U32At(file, 16) == 16
    ensures U16At(file, 20) == PcmFormat && U16At(file, 22) == f.channels
    ensures U32At(file, 24) == f.sampleRate && U32At(file, 28) == ByteRate(f)
    ensures U16At(file, 32) == BlockAlign(f) && U16At(file, 34) == f.significantBits
  {
    var c := WriteFmt(f).value;
    assert file[12..16] == c[..4];
    ReadInside(file, 12, c, 4);
    var p := FmtPayload(f);
    assert file[20..36] == p;
    ReadInside(file, 20, p, 0);
    ReadInside(file, 20, p, 2);
    ReadInside(file, 20, p, 4);
    ReadInside(file, 20, p, 8);
    ReadInside(file, 20, p, 12);
    ReadInside(file, 20, p, 14);
  }

  /** A data chunk at offset 36 shows its tag, its size and the samples. */
  lemma DataChunkAt(file: seq<byte>, data: seq<byte>)
    requires 36 <= |file| && file[36..] == WriteChunk(Ascii("data"), data).value
    ensures |file| == 44 + |data|
    ensures file[36..40] == Ascii("data") && U32At(file, 40) == Wrap32(|data|)
    ensures file[44..] == data
  {
    var c := WriteChunk(Ascii("data"), data).value;
    assert file[36..40] == c[..4];
    ReadInside(file, 36, c, 4);
    assert file[44..] == c[8..];
  }

  /** Reading back what `WriteData` wrote gives every field of the format,
      the data length and the data. The RIFF size it wrote counts the bytes
      after "WAVE" (the file length minus 12), where the RIFF format counts
      those after the size field (the file length minus 8). */
  lemma WriteDataRoundTrip(f: File, data: seq<byte>)
    ensures var file := WriteData(f, data).value;
      && DecodeWav(file) == Ok(Wav(Wrap32(32 + |data|), PcmFormat, f.channels, f.sampleRate,
                                   ByteRate(f), BlockAlign(f), f.significantBits, Wrap32(|data|), data))
      && U32At(file, 4) == Wrap32(|file| - 12)
  {
    var file := WriteData(f, data).value;
    DataFileLayout(f, data);
    FmtChunkAt(file, f);
    DataChunkAt(file, data);
  }

  /** The byte packing loop of `WriteMono`: sample i becomes the two bytes
      of `uint16(val)`, low byte first, at offsets 2i and 2i+1. */
  method PackMono(data: seq<real>, toU16: real -> uint16) returns (bytes: seq<byte>)
    ensures |bytes| == 2 * |data|
    ensures forall i :: 0 <= i < |data| ==>
      && bytes[2 * i] as int == toU16(data[i]) as int % 0x100
      && bytes[2 * i + 1] as int == toU16(data[i]) as int / 0x100
      && U16At(bytes, 2 * i) == toU16(data[i])
  {
    bytes := [];
    var i := 0;
    while i < |data|
      invariant i <= |data|
      invariant |bytes| == 2 * i
      invariant forall k :: 0 <= k < i ==> bytes[2 * k] as int == toU16(data[k]) as int % 0x100
      invariant forall k :: 0 <= k < i ==> bytes[2 * k + 1] as int == toU16(data[k]) as int / 0x100
    {
      bytes := bytes + LE16(toU16(data[i]));
      i := i + 1;
    }
  }

  /** `WriteMono`: a 16-bit mono file at the given sample rate, holding the
      packed samples. It never fails once the file is open. */
  method WriteMono(data: seq<real>, sampleRate: uint32, toU16: real -> uint16) returns (r: Result<seq<byte>>)
    ensures r.Ok? && |r.value| == 44 + 2 * |data|
    ensures DecodeWav(r.value).Ok?
    ensures var w := DecodeWav(r.value).value;
      && w.format == PcmFormat && w.channels == 1 && w.bits == 16 && w.sampleRate == sampleRate
      && w.blockAlign == 2 && w.byteRate == Wrap32(16 * sampleRate as int) / 8
      && |w.samples| == 2 * |data|
      && forall i :: 0 <= i < |data| ==> U16At(w.samples, 2 * i) == toU16(data[i])
  {
    var f := File(sampleRate, 16, 1);
    var bytes := PackMono(data, toU16);
    r := WriteData(f, bytes);
    WriteDataRoundTrip(f, bytes);
    MonoFormat(sampleRate);
    var w := DecodeWav(r.value).value;
    assert w.samples == bytes;
  }

  lemma MonoFormat(sampleRate: uint32)
    ensures ByteRate(File(sampleRate, 16, 1)) == Wrap32(16 * sampleRate as int) / 8
    ensures BlockAlign(File(sampleRate, 16, 1)) == 2
  {
    assert Wrap32(1 * sampleRate as int) == sampleRate;
  }

  /** Below 2^28 samples per second the byte rate is twice the sample rate,
      as 16-bit mono needs; above it the uint32 product wraps. */
  lemma MonoByteRate(sampleRate: uint32)
    ensures sampleRate as int < 0x1000_0000 ==> ByteRate(File(sampleRate, 16, 1)) as int == 2 * sampleRate as int
    ensures sampleRate as int == 0x1000_0000 ==> ByteRate(File(sampleRate, 16, 1)) == 0
  {
  }
}
