/** Loading the login sound: a RIFF/WAVE file read chunk by chunk over a descriptor whose reads
    may return any number of the bytes asked for. */
module WaveReader {
  import opened Arithmetic
  import opened Ascii
  import opened Wrappers
  import Texts

  /** "RIFF", "WAVE", "fmt " and "data" */
  const RIFF: seq<byte> := [82, 73, 70, 70]
  const WAVE: seq<byte> := [87, 65, 86, 69]
  const FMT: seq<byte> := [102, 109, 116, 32]
  const DATA: seq<byte> := [100, 97, 116, 97]

  const FMT_SIZE: nat := 16
  const HEADER: nat := 8

  lemma NamesSpelled()
    ensures RIFF == Texts.Codes("RIFF") && WAVE == Texts.Codes("WAVE")
    ensures FMT == Texts.Codes("fmt ") && DATA == Texts.Codes("data")
  {
  }

  // ----- Numbers, little-endian

  function Le16(s: seq<byte>, o: nat): nat
    requires o + 2 <= |s|
  {
    s[o] as int + s[o + 1] as int * 0x100
  }

  function Le32(s: seq<byte>, o: nat): (n: nat)
    requires o + 4 <= |s|
    ensures n < 0x1_0000_0000
  {
    Le16(s, o) + Le16(s, o + 2) * 0x1_0000
  }

  function PutLe32(n: nat): (s: seq<byte>)
    requires n < 0x1_0000_0000
    ensures |s| == 4
  {
    [n % 0x100, n / 0x100 % 0x100, n / 0x1_0000 % 0x100, n / 0x100_0000]
  }

  lemma Le32OfPut(n: nat)
    requires n < 0x1_0000_0000
    ensures Le32(PutLe32(n), 0) == n
  {
    var a, b, c, d := n % 0x100, n / 0x100 % 0x100, n / 0x1_0000 % 0x100, n / 0x100_0000;
    assert n / 0x100 == (n / 0x1_0000) * 0x100 + b;
    assert n / 0x1_0000 == d * 0x100 + c;
    assert n == a + b * 0x100 + (c + d * 0x100) * 0x1_0000;
  }

  /** The least significant byte comes first. */
  lemma LittleEndian(a: byte, b: byte, c: byte, d: byte)
    ensures Le16([a, b], 0) == a + b * 256
    ensures Le32([a, b, c, d], 0) == a + b * 256 + c * 65536 + d * 16777216
  {
  }

  // ----- The reader as a function of the remaining bytes

  /** A chunk's body and, if the body is odd, a byte of padding. */
  function Padded(size: nat): nat {
    size + size % 2
  }

  /** Uncompressed 16-bit stereo at the driver's sample rate. */
  predicate Supported(fmt: seq<byte>, rate: nat)
    requires |fmt| >= FMT_SIZE
  {
    Le16(fmt, 0) == 1 && Le16(fmt, 2) == 2 && Le16(fmt, 14) == 16 && Le32(fmt, 4) == rate
  }

  function PutLe16(n: nat): (s: seq<byte>)
    requires n < 0x1_0000
    ensures |s| == 2
  {
    [n % 0x100, n / 0x100]
  }

  /** A format chunk written field by field: format, channels, sample rate, byte rate, block size,
      bits per sample, and possibly more. */
  function FormatBody(format: nat, channels: nat, rate: nat, others: seq<byte>, bits: nat, more: seq<byte>): (s: seq<byte>)
    requires format < 0x1_0000 && channels < 0x1_0000 && rate < 0x1_0000_0000 && |others| == 6 && bits < 0x1_0000
    ensures |s| >= FMT_SIZE
  {
    PutLe16(format) + PutLe16(channels) + PutLe32(rate) + others + PutLe16(bits) + more
  }

  lemma Le16At(s: seq<byte>, o: nat, n: nat)
    requires o + 2 <= |s| && n < 0x1_0000 && s[o..o + 2] == PutLe16(n)
    ensures Le16(s, o) == n
  {
    assert s[o] == s[o..o + 2][0] && s[o + 1] == s[o..o + 2][1];
  }

  lemma Le32At(s: seq<byte>, o: nat, n: nat)
    requires o + 4 <= |s| && n < 0x1_0000_0000 && s[o..o + 4] == PutLe32(n)
    ensures Le32(s, o) == n
  {
    hide PutLe32;
    Le32OfPut(n);
    var t := s[o..o + 4];
    assert t[0] == s[o] && t[1] == s[o + 1] && t[2] == s[o + 2] && t[3] == s[o + 3];
  }

  /** A format is supported exactly if it is uncompressed (1), has two channels of 16 bits and the
      driver's sample rate, whatever the other fields say. */
  lemma SupportedIff(format: nat, channels: nat, rate: nat, others: seq<byte>, bits: nat, more: seq<byte>, wanted: nat)
    requires format < 0x1_0000 && channels < 0x1_0000 && rate < 0x1_0000_0000 && |others| == 6 && bits < 0x1_0000
    ensures Supported(FormatBody(format, channels, rate, others, bits, more), wanted)
       <==> format == 1 && channels == 2 && bits == 16 && rate == wanted
  {
    hide PutLe16;
    hide PutLe32;
    hide Le16;
    hide Le32;
    var s := FormatBody(format, channels, rate, others, bits, more);
    assert s[0..2] == PutLe16(format);
    assert s[2..4] == PutLe16(channels);
    assert s[4..8] == PutLe32(rate);
    assert s[14..16] == PutLe16(bits);
    Le16At(s, 0, format);
    Le16At(s, 2, channels);
    Le32At(s, 4, rate);
    Le16At(s, 14, bits);
  }

  function ReadChunks(rest: seq<byte>, haveFmt: bool, rate: nat): (r: Option<seq<byte>>)
    decreases |rest|
  {
    if |rest| < HEADER then None
    else
      var id, size, body := rest[..4], Le32(rest, 4), rest[HEADER..];
      if |body| < Padded(size) then None
      else if id == FMT then
        if size < FMT_SIZE || !Supported(body[..size], rate) then None
        else ReadChunks(body[Padded(size)..], true, rate)
      else if id == DATA then (if haveFmt then Some(body[..size]) else None)
      else ReadChunks(body[Padded(size)..], haveFmt, rate)
  }

  function Load(file: seq<byte>, rate: nat): (r: Option<seq<byte>>) {
    if |file| < 12 || file[..4] != RIFF || file[8..12] != WAVE then None
    else ReadChunks(file[12..], false, rate)
  }

  // ----- The files it accepts

  datatype Chunk = Chunk(id: seq<byte>, body: seq<byte>, pad: byte)
  {
    predicate Valid() {
      |id| == 4 && |body| < 0x1_0000_0000
    }

    function Bytes(): (s: seq<byte>)
      requires Valid()
    {
      id + (PutLe32(|body|) + (body + if |body| % 2 == 1 then [pad] else []))
    }
  }

  /** A wave file: any RIFF size, chunks, the data chunk, and anything behind it. */
  datatype File = File(riffSize: seq<byte>, chunks: seq<Chunk>, data: Chunk, trailing: seq<byte>)
  {
    predicate Valid(rate: nat) {
      && |riffSize| == 4 && data.Valid() && data.id == DATA
      && (forall i :: 0 <= i < |chunks| ==> Acceptable(chunks[i], rate))
      && (exists i :: 0 <= i < |chunks| && chunks[i].id == FMT)
    }

    function Bytes(rate: nat): seq<byte>
      requires Valid(rate)
    {
      RIFF + riffSize + WAVE + (ChunkBytes(chunks, rate) + (data.Bytes() + trailing))
    }
  }

  /** Not a data chunk, and if it is a format chunk, a supported one. */
  predicate Acceptable(c: Chunk, rate: nat) {
    c.Valid() && c.id != DATA && (c.id == FMT ==> |c.body| >= 16 && Supported(c.body, rate))
  }

  function ChunkBytes(chunks: seq<Chunk>, rate: nat): seq<byte>
    requires forall i :: 0 <= i < |chunks| ==> Acceptable(chunks[i], rate)
  {
    if chunks == [] then []
    else
      assert Acceptable(chunks[0], rate);
      chunks[0].Bytes() + ChunkBytes(chunks[1..], rate)
  }

  /** The parts of a chunk in front of other bytes. */
  lemma ChunkParts(c: Chunk, rest: seq<byte>)
    requires c.Valid()
    ensures var s := c.Bytes() + rest;
      && |s| >= HEADER && s[..4] == c.id && Le32(s, 4) == |c.body|
      && |s[HEADER..]| >= Padded(|c.body|)
      && s[HEADER..][..|c.body|] == c.body && s[HEADER..][Padded(|c.body|)..] == rest
  {
    hide PutLe32;
    var s := c.Bytes() + rest;
    var size := PutLe32(|c.body|);
    assert s[4..8] == size;
    assert s[4] == size[0] && s[5] == size[1] && s[6] == size[2] && s[7] == size[3];
    Le32OfPut(|c.body|);
  }

  /** Any eight bytes are the header of a chunk with the body that follows. */
  lemma ChunkOf(s: seq<byte>) returns (c: Chunk)
    requires |s| >= HEADER && |s[HEADER..]| >= Padded(Le32(s, 4))
    ensures c.Valid() && c.id == s[..4] && c.body == s[HEADER..][..Le32(s, 4)]
    ensures s == c.Bytes() + s[HEADER..][Padded(Le32(s, 4))..]
  {
    var n := Le32(s, 4);
    var body := s[HEADER..];
    var pad: byte := if n % 2 == 1 then body[n] else 0;
    c := Chunk(s[..4], body[..n], pad);
    PutOfLe32(s);
    var padding: seq<byte> := if n % 2 == 1 then [pad] else [];
    assert body == body[..n] + (padding + body[Padded(n)..]);
    assert s == s[..4] + (s[4..8] + body);
    assert s == c.Bytes() + body[Padded(n)..];
  }

  lemma PutOfLe32(s: seq<byte>)
    requires |s| >= 8
    ensures PutLe32(Le32(s, 4)) == s[4..8]
  {
    var a: int, b: int, c: int, d: int := s[4], s[5], s[6], s[7];
    var upper := c + d * 0x100;
    var middle := b + upper * 0x100;
    assert Le32(s, 4) == middle * 0x100 + a;
    DivUnique(middle, 0x100, a);
    DivUnique(upper, 0x100, b);
    DivUnique(d, 0x100, c);
    DivUnique(upper, 0x1_0000, b * 0x100 + a);
    DivUnique(d, 0x100_0000, c * 0x1_0000 + b * 0x100 + a);
  }

  lemma {:induction false} ReadAcceptable(chunks: seq<Chunk>, haveFmt: bool, rate: nat, rest: seq<byte>)
    requires forall i :: 0 <= i < |chunks| ==> Acceptable(chunks[i], rate)
    ensures ReadChunks(ChunkBytes(chunks, rate) + rest, haveFmt, rate)
         == ReadChunks(rest, haveFmt || exists i :: 0 <= i < |chunks| && chunks[i].id == FMT, rate)
    decreases |chunks|
  {
    hide Chunk.Bytes;
    hide Le32;
    if chunks == [] {
      assert ChunkBytes(chunks, rate) + rest == rest;
    } else {
      var tail := ChunkBytes(chunks[1..], rate) + rest;
      assert ChunkBytes(chunks, rate) + rest == chunks[0].Bytes() + tail;
      ChunkParts(chunks[0], tail);
      ReadAcceptable(chunks[1..], haveFmt || chunks[0].id == FMT, rate, rest);
      SomeFmt(chunks);
    }
  }

  lemma SomeFmt(chunks: seq<Chunk>)
    requires chunks != []
    ensures (exists i :: 0 <= i < |chunks| && chunks[i].id == FMT)
       <==> chunks[0].id == FMT || exists i :: 0 <= i < |chunks[1..]| && chunks[1..][i].id == FMT
  {
    if i :| 0 <= i < |chunks| && chunks[i].id == FMT {
      assert i > 0 ==> chunks[1..][i - 1].id == FMT;
    }
  }

  /** The reader undoes writing: from every such file it loads exactly the first data chunk. */
  lemma LoadOfFile(f: File, rate: nat)
    requires f.Valid(rate)
    ensures Load(f.Bytes(rate), rate) == Some(f.data.body)
  {
    hide Chunk.Bytes;
    hide ChunkBytes;
    var rest := ChunkBytes(f.chunks, rate) + (f.data.Bytes() + f.trailing);
    var file := f.Bytes(rate);
    assert file[..4] == RIFF && file[8..12] == WAVE && file[12..] == rest;
    ReadAcceptable(f.chunks, false, rate, f.data.Bytes() + f.trailing);
    ChunkParts(f.data, f.trailing);
  }

  lemma {:induction false} ChunksOf(rest: seq<byte>, haveFmt: bool, rate: nat)
    returns (chunks: seq<Chunk>, data: Chunk, trailing: seq<byte>)
    requires ReadChunks(rest, haveFmt, rate).Some?
    ensures forall i :: 0 <= i < |chunks| ==> Acceptable(chunks[i], rate)
    ensures haveFmt || exists i :: 0 <= i < |chunks| && chunks[i].id == FMT
    ensures data.Valid() && data.id == DATA && ReadChunks(rest, haveFmt, rate) == Some(data.body)
    ensures rest == ChunkBytes(chunks, rate) + (data.Bytes() + trailing)
    decreases |rest|
  {
    hide Le32;
    hide Chunk.Bytes;
    var c := ChunkOf(rest);
    var tail := rest[HEADER..][Padded(Le32(rest, 4))..];
    if c.id == DATA {
      chunks, data, trailing := [], c, tail;
      assert rest == [] + (data.Bytes() + trailing);
    } else {
      var more;
      more, data, trailing := ChunksOf(tail, haveFmt || c.id == FMT, rate);
      chunks := [c] + more;
      assert chunks[1..] == more;
      SomeFmt(chunks);
      assert c.Bytes() + (ChunkBytes(more, rate) + (data.Bytes() + trailing))
          == (c.Bytes() + ChunkBytes(more, rate)) + (data.Bytes() + trailing);
    }
  }

  /** Loading succeeds exactly on the wave files described above, with their data. */
  lemma LoadIff(file: seq<byte>, rate: nat, pcm: seq<byte>)
    ensures Load(file, rate) == Some(pcm)
       <==> exists f: File :: f.Valid(rate) && f.Bytes(rate) == file && f.data.body == pcm
  {
    hide File.Bytes;
    if Load(file, rate) == Some(pcm) {
      var f := FileOf(file, rate);
    }
    forall f: File | f.Valid(rate) && f.Bytes(rate) == file
      ensures Load(file, rate) == Some(f.data.body)
    {
      LoadOfFile(f, rate);
    }
  }

  lemma FileOf(file: seq<byte>, rate: nat) returns (f: File)
    requires Load(file, rate).Some?
    ensures f.Valid(rate) && f.Bytes(rate) == file && Load(file, rate) == Some(f.data.body)
  {
    hide Chunk.Bytes;
    hide ChunkBytes;
    var chunks, data, trailing := ChunksOf(file[12..], false, rate);
    f := File(file[4..8], chunks, data, trailing);
    assert file == file[..4] + file[4..8] + file[8..12] + file[12..];
  }

  // ----- The program

  /** An open file: what is left of it, and how much each read delivers at most. A read delivers
      at least one byte while there is one; a read that fails ends the file there. */
  class SoundFile {
    var rest: seq<byte>
    const delivers: nat -> nat
    var readCount: nat

    constructor (bytes: seq<byte>, delivers: nat -> nat)
      ensures rest == bytes && this.delivers == delivers
    {
      this.rest, this.delivers := bytes, delivers;
      readCount := 0;
    }

    method Read(wanted: nat) returns (got: seq<byte>)
      requires wanted > 0
      modifies this
      ensures |got| <= wanted && old(rest) == got + rest
      ensures got == [] <==> old(rest) == []
    {
      var n := delivers(readCount);
      readCount := readCount + 1;
      n := if n < 1 then 1 else if n > wanted then wanted else n;
      n := if n > |rest| then |rest| else n;
      got := rest[..n];
      rest := rest[n..];
      assert got + rest == old(rest);
    }

    /** All the bytes asked for, or the end of the file, whatever single reads deliver. */
    method ReadFully(bytes: nat) returns (ok: bool, buffer: seq<byte>)
      modifies this
      ensures ok <==> bytes <= |old(rest)|
      ensures ok ==> buffer == old(rest)[..bytes] && rest == old(rest)[bytes..]
    {
      buffer := [];
      assert [] + rest == rest;
      while |buffer| < bytes
        invariant |buffer| <= bytes && old(rest) == buffer + rest
        decreases bytes - |buffer|
      {
        ghost var before, left := buffer, rest;
        var got := Read(bytes - |buffer|);
        if got == [] {
          return false, buffer;
        }
        buffer := buffer + got;
        assert before + (got + rest) == (before + got) + rest;
      }
      ok := true;
    }

    method SkipBytes(bytes: nat) returns (ok: bool)
      modifies this
      ensures ok <==> bytes <= |old(rest)|
      ensures ok ==> rest == old(rest)[bytes..]
    {
      var remaining := bytes;
      while remaining > 0
        invariant 0 <= remaining <= bytes && bytes - remaining <= |old(rest)|
        invariant rest == old(rest)[bytes - remaining..]
      {
        var chunk := if remaining < 256 then remaining else 256;
        var got := Read(chunk);
        if got == [] {
          return false;
        }
        remaining := remaining - |got|;
      }
      ok := true;
    }

    method SkipPadding(size: nat) returns (ok: bool)
      modifies this
      ensures ok <==> size % 2 <= |old(rest)|
      ensures ok ==> rest == old(rest)[size % 2..]
    {
      if size % 2 == 1 {
        var pad;
        ok, pad := ReadFully(1);
        return;
      }
      ok := true;
    }

    /** A format chunk behind its header: read, its rest and padding skipped, then checked. */
    method ReadFmt(size: nat, rate: nat) returns (haveFmt: bool, supported: bool)
      modifies this
      ensures haveFmt <==> size >= FMT_SIZE && |old(rest)| >= Padded(size)
      ensures haveFmt ==> rest == old(rest)[Padded(size)..]
      ensures haveFmt ==> (supported <==> Supported(old(rest)[..size], rate))
      ensures supported ==> haveFmt
    {
      hide Le32;
      if size < FMT_SIZE {
        return false, false;
      }
      var ok, fmt := ReadFully(FMT_SIZE);
      if !ok {
        return false, false;
      }
      ghost var body := old(rest);
      if size > FMT_SIZE {
        ok := SkipBytes(size - FMT_SIZE);
        if !ok {
          return false, false;
        }
      }
      assert rest == body[size..];
      ok := SkipPadding(size);
      if !ok {
        return false, false;
      }
      assert rest == body[Padded(size)..];
      SameFields(fmt, body[..size], rate);
      haveFmt := true;
      supported := Le16(fmt, 0) == 1 && Le16(fmt, 2) == 2 && Le16(fmt, 14) == 16 && Le32(fmt, 4) == rate;
    }

    method LoadLoginSound(rate: nat) returns (r: Option<seq<byte>>)
      modifies this
      ensures r == Load(old(rest), rate)
    {
      hide Le32;
      hide Supported;
      ghost var file := rest;
      var ok, riff := ReadFully(12);
      if !ok {
        return None;
      }
      assert riff[..4] == file[..4] && riff[8..12] == file[8..12];
      if riff[..4] != RIFF || riff[8..12] != WAVE {
        return None;
      }

      var haveFmt, haveData := false, false;
      var pcm: seq<byte> := [];
      while true
        invariant !haveData
        invariant Load(file, rate) == ReadChunks(rest, haveFmt, rate)
        decreases |rest|
      {
        ghost var before := rest;
        var chunk;
        ok, chunk := ReadFully(HEADER);
        if !ok {
          break;
        }
        ghost var body := rest;
        HeaderOf(before, chunk);
        var id, size := chunk[..4], Le32(chunk, 4);
        if id == FMT {
          var have, supported := ReadFmt(size, rate);
          haveFmt := haveFmt || have;
          if !supported {
            break;
          }
        } else if id == DATA {
          ok, pcm := ReadFully(size);
          if !ok {
            break;
          }
          ok := SkipPadding(size);
          if !ok {
            break;
          }
          haveData := true;
          break;
        } else {
          ok := SkipBytes(size);
          if !ok {
            break;
          }
          ok := SkipPadding(size);
          if !ok {
            break;
          }
          assert rest == body[Padded(size)..];
        }
      }

      if !haveFmt || !haveData {
        return None;
      }
      r := Some(pcm);
    }
  }

  lemma SameFields(fmt: seq<byte>, body: seq<byte>, rate: nat)
    requires |fmt| == FMT_SIZE <= |body| && fmt == body[..FMT_SIZE]
    ensures Supported(body, rate) == Supported(fmt, rate)
  {
    assert forall i :: 0 <= i < FMT_SIZE ==> fmt[i] == body[i];
  }

  lemma HeaderOf(before: seq<byte>, chunk: seq<byte>)
    requires |before| >= HEADER && chunk == before[..HEADER]
    ensures chunk[..4] == before[..4] && Le32(chunk, 4) == Le32(before, 4)
  {
    assert forall i :: 0 <= i < HEADER ==> chunk[i] == before[i];
  }
}
