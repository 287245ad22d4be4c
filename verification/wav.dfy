/**
 * `getWavDuration` of src/utils/wav.ts: the playing time of a RIFF/WAVE
 * buffer, read from its `fmt ` chunk and its first `data` chunk with
 * Node's Buffer accessors. Node's 'ascii' decoding clears the high bit of
 * each byte, a read past the end throws a RangeError, and the final
 * floating-point divisions are written as an exact ratio (or the
 * infinity/NaN they give when a divisor is zero).
 */
module Wav {
  import opened Wrappers
  import opened Bytes

  /** `buffer.toString('ascii', ...)` of one byte: the high bit is cleared. */
  function Ascii(b: Byte): char {
    (b % 0x80) as char
  }

  /** `buffer.toString('ascii', start, end)`: the end is clipped to the buffer, an empty range gives "". */
  function AsciiSlice(buf: seq<Byte>, start: nat, end: nat): (s: string)
    ensures |s| == if start < end && start < |buf| then (if end < |buf| then end else |buf|) - start else 0
  {
    var e := if end < |buf| then end else |buf|;
    if start >= e then "" else seq(e - start, k requires 0 <= k < e - start => Ascii(buf[start + k]))
  }

  /** The four bytes at `off` exist and each equals the character of `id` modulo 128. */
  predicate IdAt(buf: seq<Byte>, off: nat, id: string)
    requires |id| == 4
  {
    off + 4 <= |buf| && forall k | 0 <= k < 4 :: Ascii(buf[off + k]) == id[k]
  }

  /**
   * `buffer.toString('ascii', off, off + 4) === id` is exactly `IdAt`: a
   * chunk id cut off by the end of the buffer never matches, and a byte
   * with the high bit set matches like the plain character.
   */
  lemma IdAtIsAsciiCompare(buf: seq<Byte>, off: nat, id: string)
    requires |id| == 4
    ensures IdAt(buf, off, id) <==> AsciiSlice(buf, off, off + 4) == id
  {
    if off + 4 <= |buf| {
      var s := AsciiSlice(buf, off, off + 4);
      assert forall k | 0 <= k < 4 :: s[k] == Ascii(buf[off + k]);
    }
  }

  /** The offset a read failed at: Node throws `ERR_OUT_OF_RANGE`. */
  type ReadError = nat

  /** `buffer.readUInt16LE(off)`. */
  function ReadU16(buf: seq<Byte>, off: nat): (r: Result<nat, ReadError>)
    ensures r.Err? <==> off + 2 > |buf|
    ensures r.Err? ==> r.error == off
    ensures r.Ok? ==> r.value < 0x1_0000
  {
    if off + 2 > |buf| then Err(off) else Ok(buf[off] as int + 0x100 * buf[off + 1] as int)
  }

  /** `buffer.readUInt32LE(off)`. */
  function ReadU32(buf: seq<Byte>, off: nat): (r: Result<nat, ReadError>)
    ensures r.Err? <==> off + 4 > |buf|
    ensures r.Err? ==> r.error == off
    ensures r.Ok? ==> r.value < 0x1_0000_0000
  {
    if off + 4 > |buf| then Err(off)
    else Ok(buf[off] as int + 0x100 * buf[off + 1] as int + 0x1_0000 * buf[off + 2] as int + 0x100_0000 * buf[off + 3] as int)
  }

  /** The three fields of the `fmt ` chunk that the duration needs. */
  datatype Format = Format(channels: nat, sampleRate: nat, bitsPerSample: nat)

  /**
   * The first loop: walk the chunks from `off`, each header being a
   * four-byte id and a four-byte size, until the `fmt ` chunk. The size is
   * read before the id is compared, so a header cut short throws even when
   * its id is complete.
   */
  function FindFormat(buf: seq<Byte>, off: nat): Result<Option<Format>, ReadError>
    decreases |buf| - off
  {
    if off >= |buf| then Ok(None)
    else
      match ReadU32(buf, off + 4)
      case Err(e) => Err(e)
      case Ok(size) =>
        if IdAt(buf, off, "fmt ") then
          match (ReadU16(buf, off + 10), ReadU32(buf, off + 12), ReadU16(buf, off + 22))
          case (Ok(ch), Ok(rate), Ok(bits)) => Ok(Some(Format(ch, rate, bits)))
          case (Err(e), _, _) => Err(e)
          case (Ok(_), Err(e), _) => Err(e)
          case (Ok(_), Ok(_), Err(e)) => Err(e)
        else FindFormat(buf, off + 8 + size)
  }

  /** The second loop: the size of the first `data` chunk, 0 when there is none. */
  function FindDataSize(buf: seq<Byte>, off: nat): Result<nat, ReadError>
    decreases |buf| - off
  {
    if off >= |buf| then Ok(0)
    else
      match ReadU32(buf, off + 4)
      case Err(e) => Err(e)
      case Ok(size) => if IdAt(buf, off, "data") then Ok(size) else FindDataSize(buf, off + 8 + size)
  }

  /** A JavaScript number as the duration computes it: an exact ratio of seconds, or a division by zero. */
  datatype Duration = Seconds(num: nat, den: nat) | Infinity | NaN

  const Zero := Seconds(0, 1)

  /**
   * `dataSize / (channels * bitsPerSample / 8) / sampleRate`: x / 0 is
   * Infinity for x > 0 and NaN for x = 0, and Infinity stays Infinity when
   * divided by any non-negative number.
   */
  function Ratio(dataSize: nat, f: Format): (d: Duration)
    ensures d.Seconds? <==> f.channels * f.bitsPerSample > 0 && f.sampleRate > 0
    ensures d.Seconds? ==> d.den > 0 && d.num * f.channels * f.bitsPerSample * f.sampleRate == 8 * dataSize * d.den
    ensures d.NaN? <==> dataSize == 0 && (f.channels * f.bitsPerSample == 0 || f.sampleRate == 0)
  {
    var bitsPerFrame := f.channels * f.bitsPerSample;
    if bitsPerFrame == 0 || f.sampleRate == 0 then (if dataSize == 0 then NaN else Infinity)
    else
      assert bitsPerFrame * f.sampleRate > 0 by {
        PositiveProduct(bitsPerFrame, f.sampleRate);
      }
      Seconds(8 * dataSize, bitsPerFrame * f.sampleRate)
  }

  lemma PositiveProduct(a: nat, b: nat)
    requires a > 0 && b > 0
    ensures a * b > 0
  {
  }

  /** The data size used: the `data` chunk's, or everything after a 44-byte header when that is 0. */
  function DataSize(found: nat, length: nat): nat
    requires length >= 44
  {
    if found == 0 then length - 44 else found
  }

  /**
   * `getWavDuration`: 0 for a buffer under 44 bytes, without the RIFF and
   * WAVE tags, or without a `fmt ` chunk; otherwise the data size over the
   * byte rate, or the RangeError a chunk walk ran into.
   */
  function GetWavDuration(buf: seq<Byte>): Result<Duration, ReadError> {
    if |buf| < 44 then Ok(Zero)
    else if !IdAt(buf, 0, "RIFF") || !IdAt(buf, 8, "WAVE") then Ok(Zero)
    else
      match FindFormat(buf, 12)
      case Err(e) => Err(e)
      case Ok(None) => Ok(Zero)
      case Ok(Some(f)) =>
        match FindDataSize(buf, 12)
        case Err(e) => Err(e)
        case Ok(found) => Ok(Ratio(DataSize(found, |buf|), f))
  }

  /** The first `while` loop, over a byte array, with the functional walk as its invariant. */
  method ScanFormat(buf: seq<Byte>) returns (r: Result<Option<Format>, ReadError>)
    ensures r == FindFormat(buf, 12)
  {
    var offset: nat := 12;
    while offset < |buf|
      invariant FindFormat(buf, 12) == FindFormat(buf, offset)
      decreases |buf| - offset
    {
      var size := ReadU32(buf, offset + 4);
      if size.Err? {
        return Err(size.error);
      }
      if IdAt(buf, offset, "fmt ") {
        var ch := ReadU16(buf, offset + 10);
        if ch.Err? {
          return Err(ch.error);
        }
        var rate := ReadU32(buf, offset + 12);
        if rate.Err? {
          return Err(rate.error);
        }
        var bits := ReadU16(buf, offset + 22);
        if bits.Err? {
          return Err(bits.error);
        }
        return Ok(Some(Format(ch.value, rate.value, bits.value)));
      }
      assert FindFormat(buf, offset) == FindFormat(buf, offset + 8 + size.value);
      offset := offset + 8 + size.value;
    }
    return Ok(None);
  }

  /** The second `while` loop. */
  method ScanDataSize(buf: seq<Byte>) returns (r: Result<nat, ReadError>)
    ensures r == FindDataSize(buf, 12)
  {
    var offset: nat := 12;
    while offset < |buf|
      invariant FindDataSize(buf, 12) == FindDataSize(buf, offset)
      decreases |buf| - offset
    {
      var size := ReadU32(buf, offset + 4);
      if size.Err? {
        return Err(size.error);
      }
      if IdAt(buf, offset, "data") {
        return Ok(size.value);
      }
      assert FindDataSize(buf, offset) == FindDataSize(buf, offset + 8 + size.value);
      offset := offset + 8 + size.value;
    }
    return Ok(0);
  }

  /** `getWavDuration` over a byte array, statement by statement. */
  method ComputeWavDuration(buf: seq<Byte>) returns (r: Result<Duration, ReadError>)
    ensures r == GetWavDuration(buf)
  {
    if |buf| < 44 {
      return Ok(Zero);
    }
    if !IdAt(buf, 0, "RIFF") || !IdAt(buf, 8, "WAVE") {
      return Ok(Zero);
    }
    var format := ScanFormat(buf);
    if format.Err? {
      return Err(format.error);
    }
    if format.value.None? {
      return Ok(Zero);
    }
    var found := ScanDataSize(buf);
    if found.Err? {
      return Err(found.error);
    }
    return Ok(Ratio(DataSize(found.value, |buf|), format.value.value));
  }

  /** A chunk walk fails only on a header or field that runs past the end of the buffer. */
  lemma {:induction false} WalkErrorsAtEnd(buf: seq<Byte>, off: nat)
    ensures FindFormat(buf, off).Err? ==> off + 4 <= FindFormat(buf, off).error && FindFormat(buf, off).error + 4 > |buf|
    ensures FindDataSize(buf, off).Err? ==> off + 4 <= FindDataSize(buf, off).error && FindDataSize(buf, off).error + 4 > |buf|
    decreases |buf| - off
  {
    if off < |buf| && ReadU32(buf, off + 4).Ok? {
      var size := ReadU32(buf, off + 4).value;
      WalkErrorsAtEnd(buf, off + 8 + size);
    }
  }

  // ----- The canonical 44-byte header -----

  /** Little-endian encodings, as `writeUInt16LE` / `writeUInt32LE` lay them out. */
  function Le16(v: nat): (b: seq<Byte>)
    requires v < 0x1_0000
    ensures |b| == 2
  {
    [v % 0x100, v / 0x100]
  }

  function Le32(v: nat): (b: seq<Byte>)
    requires v < 0x1_0000_0000
    ensures |b| == 4
  {
    [v % 0x100, (v / 0x100) % 0x100, (v / 0x1_0000) % 0x100, v / 0x100_0000]
  }

  lemma ReadLe16(buf: seq<Byte>, off: nat, v: nat)
    requires v < 0x1_0000 && off + 2 <= |buf| && buf[off..off + 2] == Le16(v)
    ensures ReadU16(buf, off) == Ok(v)
  {
    assert buf[off] == v % 0x100 && buf[off + 1] == v / 0x100 by {
      assert buf[off..off + 2][0] == buf[off];
      assert buf[off..off + 2][1] == buf[off + 1];
    }
  }

  lemma ReadLe32(buf: seq<Byte>, off: nat, v: nat)
    requires v < 0x1_0000_0000 && off + 4 <= |buf| && buf[off..off + 4] == Le32(v)
    ensures ReadU32(buf, off) == Ok(v)
  {
    var w := buf[off..off + 4];
    assert buf[off] == w[0] && buf[off + 1] == w[1] && buf[off + 2] == w[2] && buf[off + 3] == w[3];
    assert v / 0x100 == (v / 0x100) % 0x100 + 0x100 * (v / 0x1_0000);
    assert v / 0x1_0000 == (v / 0x1_0000) % 0x100 + 0x100 * (v / 0x100_0000);
  }

  /** The bytes of a four-character ASCII tag. */
  function Tag(s: string): (b: seq<Byte>)
    requires |s| == 4 && forall k | 0 <= k < 4 :: s[k] as int < 0x80
    ensures |b| == 4
  {
    seq(4, k requires 0 <= k < 4 => s[k] as int)
  }

  lemma ReadTag(buf: seq<Byte>, off: nat, s: string)
    requires |s| == 4 && forall k | 0 <= k < 4 :: s[k] as int < 0x80
    requires off + 4 <= |buf| && buf[off..off + 4] == Tag(s)
    ensures IdAt(buf, off, s)
  {
    forall k | 0 <= k < 4
      ensures Ascii(buf[off + k]) == s[k]
    {
      assert buf[off + k] == buf[off..off + 4][k];
    }
  }

  /**
   * The header a plain PCM recorder writes: RIFF size, `fmt ` chunk of 16
   * bytes (format 1, channels, rate, byte rate, block align, bits), then
   * the `data` chunk.
   */
  function CanonicalWav(channels: nat, rate: nat, byteRate: nat, blockAlign: nat, bits: nat, data: seq<Byte>): (w: seq<Byte>)
    requires channels < 0x1_0000 && blockAlign < 0x1_0000 && bits < 0x1_0000
    requires rate < 0x1_0000_0000 && byteRate < 0x1_0000_0000 && 36 + |data| < 0x1_0000_0000
    ensures |w| == 44 + |data|
  {
    Tag("RIFF") + Le32(36 + |data|) + Tag("WAVE")
    + Tag("fmt ") + Le32(16) + Le16(1) + Le16(channels) + Le32(rate) + Le32(byteRate) + Le16(blockAlign) + Le16(bits)
    + Tag("data") + Le32(|data|) + data
  }

  /** Where each field of the canonical header lies. */
  lemma CanonicalLayout(channels: nat, rate: nat, byteRate: nat, blockAlign: nat, bits: nat, data: seq<Byte>)
    requires channels < 0x1_0000 && blockAlign < 0x1_0000 && bits < 0x1_0000
    requires rate < 0x1_0000_0000 && byteRate < 0x1_0000_0000 && 36 + |data| < 0x1_0000_0000
    ensures var w := CanonicalWav(channels, rate, byteRate, blockAlign, bits, data);
      && w[0..4] == Tag("RIFF") && w[8..12] == Tag("WAVE") && w[12..16] == Tag("fmt ")
      && w[16..20] == Le32(16) && w[22..24] == Le16(channels) && w[24..28] == Le32(rate)
      && w[34..36] == Le16(bits) && w[36..40] == Tag("data") && w[40..44] == Le32(|data|)
  {
  }

  /** The first walk stops at offset 12 with the header's format fields. */
  lemma CanonicalFormat(channels: nat, rate: nat, byteRate: nat, blockAlign: nat, bits: nat, data: seq<Byte>)
    requires channels < 0x1_0000 && blockAlign < 0x1_0000 && bits < 0x1_0000
    requires rate < 0x1_0000_0000 && byteRate < 0x1_0000_0000 && 36 + |data| < 0x1_0000_0000
    ensures var w := CanonicalWav(channels, rate, byteRate, blockAlign, bits, data);
      IdAt(w, 0, "RIFF") && IdAt(w, 8, "WAVE") && FindFormat(w, 12) == Ok(Some(Format(channels, rate, bits)))
  {
    var w := CanonicalWav(channels, rate, byteRate, blockAlign, bits, data);
    CanonicalLayout(channels, rate, byteRate, blockAlign, bits, data);
    ReadTag(w, 0, "RIFF");
    ReadTag(w, 8, "WAVE");
    ReadTag(w, 12, "fmt ");
    ReadLe32(w, 16, 16);
    ReadLe16(w, 22, channels);
    ReadLe32(w, 24, rate);
    ReadLe16(w, 34, bits);
  }

  /** The second walk skips the 16-byte `fmt ` chunk and finds `data` at offset 36. */
  lemma CanonicalData(channels: nat, rate: nat, byteRate: nat, blockAlign: nat, bits: nat, data: seq<Byte>)
    requires channels < 0x1_0000 && blockAlign < 0x1_0000 && bits < 0x1_0000
    requires rate < 0x1_0000_0000 && byteRate < 0x1_0000_0000 && 36 + |data| < 0x1_0000_0000
    ensures FindDataSize(CanonicalWav(channels, rate, byteRate, blockAlign, bits, data), 12) == Ok(|data|)
  {
    var w := CanonicalWav(channels, rate, byteRate, blockAlign, bits, data);
    CanonicalLayout(channels, rate, byteRate, blockAlign, bits, data);
    ReadLe32(w, 16, 16);
    ReadTag(w, 36, "data");
    ReadLe32(w, 40, |data|);
    assert !IdAt(w, 12, "data") by {
      assert w[12] == w[12..16][0] == Tag("fmt ")[0] == "fmt "[0] as int;
      assert Ascii(w[12]) == 'f' != "data"[0];
    }
    assert FindDataSize(w, 12) == FindDataSize(w, 36);
  }

  /**
   * Reading back a canonical file gives the duration of its data at its
   * rate, channels and sample width: |data| * 8 / (channels * bits * rate)
   * seconds. The byte rate and block align written in the header are never
   * consulted.
   */
  lemma CanonicalDuration(channels: nat, rate: nat, byteRate: nat, blockAlign: nat, bits: nat, data: seq<Byte>)
    requires channels < 0x1_0000 && blockAlign < 0x1_0000 && bits < 0x1_0000
    requires rate < 0x1_0000_0000 && byteRate < 0x1_0000_0000 && 36 + |data| < 0x1_0000_0000
    ensures GetWavDuration(CanonicalWav(channels, rate, byteRate, blockAlign, bits, data))
      == Ok(Ratio(|data|, Format(channels, rate, bits)))
  {
    CanonicalFormat(channels, rate, byteRate, blockAlign, bits, data);
    CanonicalData(channels, rate, byteRate, blockAlign, bits, data);
  }
}
