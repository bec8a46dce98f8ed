/** The content fingerprinter (`hash_file`): which bytes of a file reach
    the hasher, and the eight-byte fingerprint made from its digest.

    XXH3 itself is a parameter `h`; nothing is assumed about it, so every
    property here is about the hasher's input, not about hash quality. */
module Fingerprinter {
  import opened Io
  import opened Bytes

  const SAMPLE_SIZE: nat := 65536
  const LARGE_FILE_THRESHOLD: nat := 1_048_576
  const BUFFER_SIZE: nat := 16384

  /** What `fs::metadata` and `File::open` find at a path when it is
      fingerprinted. `size` is the length the metadata reports; `content`
      is what reads deliver; the two disagree if the file changed between
      the two calls. `badByte` is the offset of a byte the device cannot
      read, if there is one. */
  datatype StoredFile =
    | Missing
    | Unopenable(size: U64)
    | Stored(size: U64, content: seq<Byte>, badByte: Option<nat>)

  /** A stored file whose metadata agrees with its content and whose bytes
      can all be read. */
  predicate Intact(f: StoredFile)
  {
    f.Stored? && |f.content| == f.size && f.badByte.None?
  }

  function Min(a: int, b: int): int { if a <= b then a else b }

  /** `x as i64` for a `u64`: two's-complement reinterpretation. */
  function AsI64(x: U64): int
  {
    if x < 0x8000_0000_0000_0000 then x else x - U64_LIMIT
  }

  /** Wrapping `i64` arithmetic, as a release build performs it. */
  function WrapI64(x: int): int
  {
    (x + 0x8000_0000_0000_0000) % U64_LIMIT - 0x8000_0000_0000_0000
  }

  /** The offset handed to `SeekFrom::End`: `-(SAMPLE_SIZE as i64).min(size as i64)`. */
  function TailSeek(size: U64): int
  {
    WrapI64(-Min(SAMPLE_SIZE, AsI64(size)))
  }

  /** `read_exact` of `n` bytes at `pos`: it fails on the unreadable byte if
      it reaches it before running out of content. */
  function ReadSpan(content: seq<Byte>, bad: Option<nat>, pos: nat, n: nat): Result<seq<Byte>>
  {
    if bad.Some? && pos <= bad.value < |content| && bad.value < pos + n then Err(ReadFailed)
    else if pos + n > |content| then Err(UnexpectedEof)
    else Ok(content[pos..pos + n])
  }

  /** The bytes `hash_file` feeds the hasher, or the error that stops it. */
  function HasherInput(f: StoredFile): Result<seq<Byte>>
  {
    match f
    case Missing => Err(NotFound)
    case Unopenable(_) => Err(PermissionDenied)
    case Stored(size, content, bad) =>
      if size <= LARGE_FILE_THRESHOLD then
        if bad.Some? && bad.value < |content| then Err(ReadFailed) else Ok(content)
      else
        match ReadSpan(content, bad, 0, SAMPLE_SIZE)
        case Err(e) => Err(e)
        case Ok(head) =>
          var pos := |content| + TailSeek(size);
          if pos < 0 then Err(InvalidSeek)
          else
            match ReadSpan(content, bad, pos, SAMPLE_SIZE)
            case Err(e) => Err(e)
            case Ok(tail) => Ok(head + tail + LE8(size))
  }

  /** The fingerprint of a file: the digest of its hasher input, as eight
      little-endian bytes. */
  function FileFingerprint(h: seq<Byte> -> U64, f: StoredFile): (r: Result<seq<Byte>>)
    ensures r.Ok? <==> HasherInput(f).Ok?
    ensures r.Ok? ==> |r.value| == 8 && FromLE(r.value) == h(HasherInput(f).value)
  {
    match HasherInput(f)
    case Err(e) => Err(e)
    case Ok(input) => Ok(LE8(h(input)))
  }

  /** An open file handle: fixed content and a read position. */
  class Reader {
    const content: seq<Byte>
    const bad: Option<nat>
    var pos: nat

    constructor Open(content: seq<Byte>, bad: Option<nat>)
      ensures this.content == content && this.bad == bad && pos == 0
    {
      this.content := content;
      this.bad := bad;
      pos := 0;
    }

    /** `Read::read`: at end of file, reads nothing; otherwise fills a
        non-empty prefix of `buf` whose length the device chooses, or fails
        if that prefix would cover the unreadable byte. */
    method Read(buf: array<Byte>) returns (r: Result<nat>)
      requires buf.Length > 0
      modifies this, buf
      ensures old(pos) >= |content| ==> r == Ok(0) && pos == old(pos)
      ensures old(pos) < |content| && r.Ok? ==>
        && 0 < r.value <= buf.Length
        && old(pos) + r.value <= |content|
        && buf[..r.value] == content[old(pos)..old(pos) + r.value]
        && pos == old(pos) + r.value
        && !(bad.Some? && old(pos) <= bad.value < pos)
      ensures r.Err? ==>
        r.error == ReadFailed && bad.Some? && old(pos) <= bad.value < |content| &&
        bad.value < old(pos) + buf.Length
    {
      if pos >= |content| {
        return Ok(0);
      }
      assert 1 <= buf.Length && pos + 1 <= |content|;
      var n :| 1 <= n <= buf.Length && pos + n <= |content|;
      if bad.Some? && pos <= bad.value < pos + n {
        return Err(ReadFailed);
      }
      forall i | 0 <= i < n {
        buf[i] := content[pos + i];
      }
      pos := pos + n;
      return Ok(n);
    }

    /** `Read::read_exact`: fills all of `buf` or fails. */
    method ReadExact(buf: array<Byte>) returns (r: Result<()>)
      modifies this, buf
      ensures ReadSpan(content, bad, old(pos), buf.Length).Err? ==>
        r == Err(ReadSpan(content, bad, old(pos), buf.Length).error)
      ensures ReadSpan(content, bad, old(pos), buf.Length).Ok? ==>
        r.Ok? && buf[..] == ReadSpan(content, bad, old(pos), buf.Length).value &&
        pos == old(pos) + buf.Length
    {
      var span := ReadSpan(content, bad, pos, buf.Length);
      if span.Err? {
        return Err(span.error);
      }
      forall i | 0 <= i < buf.Length {
        buf[i] := span.value[i];
      }
      pos := pos + buf.Length;
      return Ok(());
    }

    /** `Seek::seek(SeekFrom::End(offset))`: a position before the start is
        an error; one past the end is allowed. */
    method SeekFromEnd(offset: int) returns (r: Result<nat>)
      modifies this
      ensures |content| + offset < 0 ==> r == Err(InvalidSeek) && pos == old(pos)
      ensures |content| + offset >= 0 ==> r == Ok(|content| + offset) && pos == |content| + offset
    {
      if |content| + offset < 0 {
        return Err(InvalidSeek);
      }
      pos := |content| + offset;
      return Ok(pos);
    }
  }

  /** A streaming hasher. Its state is abstracted as everything fed to it so
      far; its digest is `h` of that. */
  class Hasher {
    var fed: seq<Byte>

    constructor ()
      ensures fed == []
    {
      fed := [];
    }

    method Update(data: seq<Byte>)
      modifies this
      ensures fed == old(fed) + data
    {
      fed := fed + data;
    }

    function Digest(h: seq<Byte> -> U64): U64
      reads this
    {
      h(fed)
    }
  }

  /** The large-file branch of `hash_file`: head, tail (after seeking back
      from the end) and the little-endian size, fed in that order. */
  method HashSample(file: Reader, hasher: Hasher, size: U64) returns (r: Result<()>)
    requires file.pos == 0 && hasher.fed == []
    modifies file, hasher
    ensures var f := Stored(size, file.content, file.bad);
      size > LARGE_FILE_THRESHOLD ==>
        match HasherInput(f)
        case Ok(input) => r.Ok? && hasher.fed == input
        case Err(e) => r == Err(e)
  {
    var head := new Byte[SAMPLE_SIZE];
    var got := file.ReadExact(head);
    if got.Err? {
      return Err(got.error);
    }
    hasher.Update(head[..]);

    var sought := file.SeekFromEnd(TailSeek(size));
    if sought.Err? {
      return Err(sought.error);
    }
    var tail := new Byte[SAMPLE_SIZE];
    got := file.ReadExact(tail);
    if got.Err? {
      return Err(got.error);
    }
    hasher.Update(tail[..]);

    hasher.Update(LE8(size));
    return Ok(());
  }

  /** `hash_file`: small files are hashed whole, in chunks, until a read
      returns nothing; large files by head, tail and size. */
  method HashFile(f: StoredFile, h: seq<Byte> -> U64) returns (r: Result<seq<Byte>>)
    ensures r == FileFingerprint(h, f)
  {
    if f.Missing? {
      return Err(NotFound);
    }
    var size := f.size;
    if f.Unopenable? {
      return Err(PermissionDenied);
    }
    var file := new Reader.Open(f.content, f.badByte);
    var hasher := new Hasher();

    if size <= LARGE_FILE_THRESHOLD {
      var buffer := new Byte[BUFFER_SIZE];
      while true
        invariant file.content == f.content && file.bad == f.badByte
        invariant file.pos <= |file.content|
        invariant hasher.fed == file.content[..file.pos]
        invariant !(file.bad.Some? && file.bad.value < file.pos)
        decreases |file.content| - file.pos
      {
        var read := file.Read(buffer);
        if read.Err? {
          return Err(read.error);
        }
        if read.value == 0 {
          break;
        }
        hasher.Update(buffer[..read.value]);
      }
      assert hasher.fed == f.content;
    } else {
      var sampled := HashSample(file, hasher, size);
      if sampled.Err? {
        return Err(sampled.error);
      }
    }

    return Ok(LE8(hasher.Digest(h)));
  }

  /** An intact file of at most 1 MiB is hashed over its whole content. */
  lemma SmallFileHashesWholeContent(f: StoredFile)
    requires Intact(f) && f.size <= LARGE_FILE_THRESHOLD
    ensures HasherInput(f) == Ok(f.content)
  {
  }

  /** The tail seek never reaches before the start of an intact file whose
      size fits in an `i64`; past the threshold it lands exactly 64 KiB
      before the end, and that is at or after the end of the head. */
  lemma TailSeekInBounds(size: U64)
    requires size < 0x8000_0000_0000_0000
    ensures size + TailSeek(size) == size - Min(SAMPLE_SIZE, size) >= 0
    ensures size > LARGE_FILE_THRESHOLD ==> size + TailSeek(size) == size - SAMPLE_SIZE > SAMPLE_SIZE
  {
    var x := -Min(SAMPLE_SIZE, AsI64(size));
    assert 0 <= x + 0x8000_0000_0000_0000 < U64_LIMIT;
  }

  /** At any `u64` size the tail seek lands at or after the start of a file
      of that length: at 2^63 the wrapped negation lands on offset 0, above
      it the offset is positive and the seek lands past the end. */
  lemma TailSeekNeverBeforeStart(size: U64)
    ensures size + TailSeek(size) >= 0
  {
    if size < 0x8000_0000_0000_0000 {
      TailSeekInBounds(size);
    } else {
      var x := -AsI64(size);
      assert 0 < x <= 0x8000_0000_0000_0000;
      assert WrapI64(x) == if x == 0x8000_0000_0000_0000 then -x else x;
    }
  }

  /** An intact file above 1 MiB (and below 2^63 bytes) is hashed over
      exactly its first 64 KiB, its last 64 KiB and its size. */
  lemma LargeFileHashesHeadTailSize(f: StoredFile)
    requires Intact(f) && LARGE_FILE_THRESHOLD < f.size < 0x8000_0000_0000_0000
    ensures HasherInput(f) ==
      Ok(f.content[..SAMPLE_SIZE] + f.content[f.size - SAMPLE_SIZE..] + LE8(f.size))
  {
    TailSeekInBounds(f.size);
    var c := f.content;
    assert ReadSpan(c, None, 0, SAMPLE_SIZE) == Ok(c[..SAMPLE_SIZE]);
    var pos := |c| + TailSeek(f.size);
    assert pos == f.size - SAMPLE_SIZE;
    assert c[pos..pos + SAMPLE_SIZE] == c[f.size - SAMPLE_SIZE..];
  }

  /** Intact files below 2^63 bytes always fingerprint. */
  lemma IntactFileFingerprints(h: seq<Byte> -> U64, f: StoredFile)
    requires Intact(f) && f.size < 0x8000_0000_0000_0000
    ensures FileFingerprint(h, f).Ok?
  {
    if f.size > LARGE_FILE_THRESHOLD {
      LargeFileHashesHeadTailSize(f);
    }
  }

  /** Two intact small files with the same bytes get the same fingerprint. */
  lemma EqualSmallFilesCollide(h: seq<Byte> -> U64, f: StoredFile, g: StoredFile)
    requires Intact(f) && Intact(g) && f.size <= LARGE_FILE_THRESHOLD
    requires f.content == g.content
    ensures FileFingerprint(h, f) == FileFingerprint(h, g)
    ensures FileFingerprint(h, f).Ok?
  {
  }

  /** The accepted false positive: two intact large files of the same size
      whose first and last 64 KiB agree fingerprint alike, however their
      interiors differ. */
  lemma SameHeadTailSizeCollide(h: seq<Byte> -> U64, f: StoredFile, g: StoredFile)
    requires Intact(f) && Intact(g) && f.size == g.size
    requires LARGE_FILE_THRESHOLD < f.size < 0x8000_0000_0000_0000
    requires f.content[..SAMPLE_SIZE] == g.content[..SAMPLE_SIZE]
    requires f.content[f.size - SAMPLE_SIZE..] == g.content[g.size - SAMPLE_SIZE..]
    ensures FileFingerprint(h, f) == FileFingerprint(h, g)
    ensures FileFingerprint(h, f).Ok?
  {
    LargeFileHashesHeadTailSize(f);
    LargeFileHashesHeadTailSize(g);
  }

  /** Mixing in the size: intact large files of different sizes never give
      the hasher the same input. */
  lemma DifferentSizesDifferentInputs(f: StoredFile, g: StoredFile)
    requires Intact(f) && Intact(g) && f.size != g.size
    requires LARGE_FILE_THRESHOLD < f.size < 0x8000_0000_0000_0000
    requires LARGE_FILE_THRESHOLD < g.size < 0x8000_0000_0000_0000
    ensures HasherInput(f).Ok? && HasherInput(g).Ok?
    ensures HasherInput(f).value != HasherInput(g).value
  {
    LargeFileHashesHeadTailSize(f);
    LargeFileHashesHeadTailSize(g);
    var a, b := HasherInput(f).value, HasherInput(g).value;
    assert a[2 * SAMPLE_SIZE..] == LE8(f.size);
    assert b[2 * SAMPLE_SIZE..] == LE8(g.size);
    if LE8(f.size) == LE8(g.size) {
      LE8Injective(f.size, g.size);
    }
  }
}
