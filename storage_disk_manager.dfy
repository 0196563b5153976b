/**
 * The bootstrap logic of the disk manager of the `storage` package, over a
 * backing file modelled as a byte sequence.
 *
 * Layout: a header of `headerSize` bytes at offset 0 holding the directory
 * page's offset as a big-endian 64-bit integer (all zero: no directory yet),
 * then the directory page, zero-padded to `PageSize` bytes, at offset
 * `headerSize`.
 *
 * Any call into the operating system may fail (`IoFault` chooses freely);
 * a failed call changes nothing. The JSON codec is foreign code: `Encode`
 * and `json.Unmarshal` are the function parameters `encode` and `unmarshal`.
 */
module StorageDiskManager {
  import opened Common
  import StorageBuffer

  const PageSize: nat := 2048
  const Two63: nat := 0x8000_0000_0000_0000
  const Two64: nat := 0x1_0000_0000_0000_0000

  /** Go's `Offset int64`. */
  type Offset = int

  predicate IsInt64(x: int)
  {
    -(Two63 as int) <= x < Two63
  }

  datatype DirectoryPage = DirectoryPage(mapping: map<StorageBuffer.PageID, Offset>)

  const EmptyDirectory: DirectoryPage := DirectoryPage(map[])

  datatype Error =
    | IoError           // a failure reported by the operating system
    | EndOfFile         // io.EOF
    | NegativeOffset    // a read, write or seek before the start of the file
    | ShortWrite        // "failed to write entire page to disk"
    | CodecError        // an error returned by Encode or json.Unmarshal

  // ------------------------------------------------- integers and byte order

  /** Go's conversion `uint64(x)` of an `int64`: two's complement wrap-around. */
  function ToUint64(x: int): (r: nat)
    ensures r < Two64
    ensures IsInt64(x) ==> (r == 0 <==> x == 0)
  {
    x % Two64
  }

  /** Go's conversion `Offset(u)` of a `uint64` to an `int64`. */
  function ToInt64(u: nat): (r: int)
    requires u < Two64
    ensures IsInt64(r)
    ensures forall x :: IsInt64(x) && u == ToUint64(x) ==> r == x
  {
    if u < Two63 then u else u - Two64
  }

  function Pow256(n: nat): (r: nat)
    ensures r > 0
  {
    if n == 0 then 1 else 256 * Pow256(n - 1)
  }

  lemma Pow256Eight()
    ensures Pow256(8) == Two64
  {
  }

  /** The `n`-byte big-endian representation of `u` modulo `256^n`. */
  function BigEndian(u: nat, n: nat): (r: seq<byte>)
    ensures |r| == n
  {
    if n == 0 then [] else BigEndian(u / 256, n - 1) + [u % 256]
  }

  /** The value of a big-endian byte string, as `binary.BigEndian.Uint64` reads one. */
  function FromBigEndian(s: seq<byte>): (r: nat)
    ensures r < Pow256(|s|)
  {
    if s == [] then 0
    else
      var high := FromBigEndian(s[..|s| - 1]);
      assert high * 256 <= (Pow256(|s| - 1) - 1) * 256;
      high * 256 + s[|s| - 1]
  }

  /** Decoding the `n`-byte big-endian encoding of a value below `256^n` gives it back. */
  lemma {:induction false} BigEndianRoundTrip(u: nat, n: nat)
    requires u < Pow256(n)
    ensures FromBigEndian(BigEndian(u, n)) == u
  {
    if n > 0 {
      var s := BigEndian(u, n);
      assert s[..n - 1] == BigEndian(u / 256, n - 1);
      BigEndianRoundTrip(u / 256, n - 1);
    }
  }

  predicate AllZero(s: seq<byte>)
  {
    forall i :: 0 <= i < |s| ==> s[i] == 0
  }

  /** A big-endian string denotes zero exactly when all its bytes are zero. */
  lemma {:induction false} FromBigEndianZero(s: seq<byte>)
    ensures FromBigEndian(s) == 0 <==> AllZero(s)
  {
    if s != [] {
      var p := s[..|s| - 1];
      FromBigEndianZero(p);
      assert AllZero(s) <==> AllZero(p) && s[|s| - 1] == 0 by {
        if AllZero(p) && s[|s| - 1] == 0 {
          forall i | 0 <= i < |s| ensures s[i] == 0 {
            if i < |s| - 1 { assert s[i] == p[i]; }
          }
        }
      }
    }
  }

  // ------------------------------------------------------------------ header

  /** `binary.BigEndian.PutUint64(b, v)`: the first 8 bytes of `b` become `v`, big-endian. */
  function PutUint64(b: seq<byte>, v: nat): (r: seq<byte>)
    requires |b| >= 8 && v < Two64
    ensures |r| == |b| && r[8..] == b[8..]
    ensures FromBigEndian(r[..8]) == v
  {
    var r := BigEndian(v, 8) + b[8..];
    Pow256Eight();
    BigEndianRoundTrip(v, 8);
    assert r[..8] == BigEndian(v, 8);
    r
  }

  /** Go's `copy(dst, src)`: overwrite the first `min(len(dst), len(src))` bytes of `dst`. */
  function Copy(dst: seq<byte>, src: seq<byte>): (r: seq<byte>)
    ensures |r| == |dst|
    ensures forall i :: 0 <= i < |dst| ==> r[i] == if i < |src| then src[i] else dst[i]
  {
    if |src| >= |dst| then src[..|dst|] else src + dst[|src|..]
  }

  /** The header `updateHeader(offset)` writes. */
  function EncodeHeader(offset: Offset, headerSize: nat): (r: seq<byte>)
    requires headerSize >= 8
    ensures |r| == headerSize
    ensures FromBigEndian(r[..8]) == ToUint64(offset)
    ensures AllZero(r[8..])
  {
    PutUint64(Zeros(headerSize), ToUint64(offset))
  }

  /** The offset `readHeader` reports for a header: 0 when it is all zero. */
  function DecodeHeader(header: seq<byte>): (r: Offset)
    requires |header| >= 8
    ensures IsInt64(r)
    ensures AllZero(header) ==> r == 0
    ensures !AllZero(header) ==> ToUint64(r) == FromBigEndian(header[..8])
    ensures !AllZero(header[..8]) ==> r != 0
  {
    if AllZero(header) then 0
    else
      Pow256Eight();
      FromBigEndianZero(header[..8]);
      ToInt64(FromBigEndian(header[..8]))
  }

  /** `readHeader` after `updateHeader(offset)` reports `offset`, zero included. */
  lemma HeaderRoundTrip(offset: Offset, headerSize: nat)
    requires IsInt64(offset) && headerSize >= 8
    ensures DecodeHeader(EncodeHeader(offset, headerSize)) == offset
  {
    var h := EncodeHeader(offset, headerSize);
    FromBigEndianZero(h[..8]);
    if offset == 0 {
      forall i | 0 <= i < |h| ensures h[i] == 0 {
        if i < 8 { assert h[i] == h[..8][i]; } else { assert h[i] == h[8..][i - 8]; }
      }
    } else {
      assert !AllZero(h[..8]);
      assert !AllZero(h) by {
        var i :| 0 <= i < 8 && h[..8][i] != 0;
        assert h[i] != 0;
      }
    }
  }

  // ---------------------------------------------------------------- the file

  function Min(a: int, b: int): int
  {
    if a <= b then a else b
  }

  /**
   * The file after `WriteAt(b, off)`: `b` lies at `off`, every other byte
   * keeps its value, and a gap past the old end reads as zeros.
   */
  function WriteAtImage(file: seq<byte>, off: nat, b: seq<byte>): (r: seq<byte>)
    ensures |r| == if off + |b| > |file| then off + |b| else |file|
    ensures r[off..off + |b|] == b
    ensures forall i :: 0 <= i < |file| && !(off <= i < off + |b|) ==> r[i] == file[i]
    ensures forall i :: |file| <= i < off ==> r[i] == 0
  {
    if off + |b| <= |file| then file[..off] + b + file[off + |b|..]
    else if off <= |file| then file[..off] + b
    else file + Zeros(off - |file|) + b
  }

  /** The directory bytes followed by zeros up to `PageSize`, as `WriteDirectoryDisk` pads them. */
  function Padded(b: seq<byte>): (r: seq<byte>)
    requires |b| <= PageSize
    ensures |r| == PageSize && r[..|b|] == b && AllZero(r[|b|..])
  {
    b + Zeros(PageSize - |b|)
  }

  /**
   * The `PageSize` block `LoadDirectoryPage` fills from offset `off`: what
   * the file holds there, zero-filled where the file ends early.
   */
  function LoadedBlock(file: seq<byte>, off: nat): (r: seq<byte>)
    requires off < |file|
    ensures |r| == PageSize
    ensures forall i :: 0 <= i < PageSize && off + i < |file| ==> r[i] == file[off + i]
    ensures forall i :: 0 <= i < PageSize && off + i >= |file| ==> r[i] == 0
  {
    var k := Min(PageSize, |file| - off);
    file[off..off + k] + Zeros(PageSize - k)
  }

  // ---------------------------------------------------------------- trimming

  predicate HasZero(s: seq<byte>)
  {
    exists i :: 0 <= i < |s| && s[i] == 0
  }

  /** The index of the first zero byte, or `|s|` when there is none. */
  function IndexOfZero(s: seq<byte>): (r: nat)
    ensures r <= |s|
    ensures r < |s| ==> s[r] == 0
    ensures forall j :: 0 <= j < r ==> s[j] != 0
  {
    if s == [] then 0
    else if s[0] == 0 then 0
    else 1 + IndexOfZero(s[1..])
  }

  /**
   * The `endIndex` of `LoadDirectoryPage`: the index of the first zero byte,
   * and 0 (not the length) when the block has none.
   */
  function EndIndex(block: seq<byte>): (r: nat)
    ensures r <= |block|
    ensures HasZero(block) ==> r < |block| && block[r] == 0 && forall j :: 0 <= j < r ==> block[j] != 0
    ensures !HasZero(block) ==> r == 0
  {
    if IndexOfZero(block) < |block| then IndexOfZero(block) else 0
  }

  /** The bytes `LoadDirectoryPage` hands to `json.Unmarshal`. */
  function Trimmed(block: seq<byte>): (r: seq<byte>)
    ensures |r| <= |block| && r == block[..|r|] && !HasZero(r)
    ensures HasZero(block) ==> |r| < |block| && block[|r|] == 0
    ensures !HasZero(block) ==> r == []
  {
    block[..EndIndex(block)]
  }

  /** Padding then trimming gives back a zero-free string shorter than a page. */
  lemma PadTrimRoundTrip(b: seq<byte>)
    requires |b| < PageSize && !HasZero(b)
    ensures Trimmed(Padded(b)) == b
  {
    var p := Padded(b);
    assert p[|b|] == 0;
    assert HasZero(p);
  }

  /** A full page with no zero byte trims to nothing, because `endIndex` stays 0. */
  lemma FullPageTrimsToEmpty(b: seq<byte>)
    requires |b| == PageSize && !HasZero(b)
    ensures Trimmed(Padded(b)) == []
  {
  }

  /** The loop of `LoadDirectoryPage` that finds `endIndex`. */
  method ScanEndIndex(dirPageBytes: seq<byte>) returns (endIndex: nat)
    ensures endIndex == EndIndex(dirPageBytes)
  {
    endIndex := 0;
    var i := 0;
    while i < |dirPageBytes|
      invariant 0 <= i <= |dirPageBytes|
      invariant forall j :: 0 <= j < i ==> dirPageBytes[j] != 0
      invariant endIndex == 0
    {
      if dirPageBytes[i] == 0 {
        endIndex := i;
        break;
      }
      i := i + 1;
    }
  }

  // --------------------------------------------------------------- bootstrap

  /** `Encode` of the empty directory, when it succeeds, fits in one page. */
  ghost predicate EncodeFits(encode: DirectoryPage -> Result<seq<byte>, Error>)
  {
    encode(EmptyDirectory).Ok? ==> |encode(EmptyDirectory).value| <= PageSize
  }

  /** The file after a successful `createDirectoryPage` with directory bytes `enc`. */
  function CreatedImage(file: seq<byte>, headerSize: nat, enc: seq<byte>): (r: seq<byte>)
    requires 8 <= headerSize && |enc| <= PageSize
    ensures |r| >= headerSize + PageSize
  {
    var written := WriteAtImage(file, headerSize, Padded(enc));
    EncodeHeader(headerSize, headerSize) + written[headerSize..]
  }

  /**
   * After `createDirectoryPage`, the header points at `headerSize`, the
   * directory block sits there, everything past it is as it was, and
   * reloading from the header's offset gives back the encoded bytes.
   */
  lemma CreatedLayout(file: seq<byte>, headerSize: nat, enc: seq<byte>)
    requires 8 <= headerSize < Two63 && |enc| <= PageSize
    ensures var r := CreatedImage(file, headerSize, enc);
      DecodeHeader(r[..headerSize]) == headerSize &&
      r[headerSize..headerSize + PageSize] == Padded(enc) &&
      LoadedBlock(r, headerSize) == Padded(enc) &&
      (forall i :: headerSize + PageSize <= i < |file| ==> r[i] == file[i])
    ensures !HasZero(enc) && |enc| < PageSize ==>
      Trimmed(LoadedBlock(CreatedImage(file, headerSize, enc), headerSize)) == enc
  {
    var r := CreatedImage(file, headerSize, enc);
    var written := WriteAtImage(file, headerSize, Padded(enc));
    assert r[..headerSize] == EncodeHeader(headerSize, headerSize);
    HeaderRoundTrip(headerSize, headerSize);
    assert r[headerSize..headerSize + PageSize] == written[headerSize..headerSize + PageSize];
    var block := LoadedBlock(r, headerSize);
    assert block == Padded(enc) by {
      forall i | 0 <= i < PageSize ensures block[i] == Padded(enc)[i] {
        assert r[headerSize + i] == written[headerSize + i];
        assert written[headerSize..headerSize + PageSize][i] == Padded(enc)[i];
      }
    }
    forall i | headerSize + PageSize <= i < |file| ensures r[i] == file[i] {
      assert r[i] == written[i];
    }
    if !HasZero(enc) && |enc| < PageSize {
      PadTrimRoundTrip(enc);
    }
  }

  /** One failure of one operating-system call: any call may fail. */
  method IoFault() returns (failed: bool)
  {
    failed :| true;
  }

  /** `NewDiskManager` with the backing file's current `contents`. */
  method NewDiskManager(contents: seq<byte>, headerSize: nat,
                        encode: DirectoryPage -> Result<seq<byte>, Error>,
                        unmarshal: (seq<byte>, DirectoryPage) -> Result<DirectoryPage, Error>)
    returns (dm: DiskManager?, err: Option<Error>)
    requires 8 <= headerSize < Two63 && EncodeFits(encode)
    ensures dm == null <==> err.Some?
    ensures dm != null ==> fresh(dm) && dm.Valid() && dm.headerSize == headerSize
    ensures dm != null ==> |dm.file| >= headerSize && DecodeHeader(dm.file[..headerSize]) != 0
    ensures dm != null && |contents| < headerSize ==>
      dm.directoryPage == EmptyDirectory && encode(EmptyDirectory).Ok? &&
      dm.file == CreatedImage(Zeros(headerSize), headerSize, encode(EmptyDirectory).value)
  {
    dm := new DiskManager(contents, headerSize);
    err := dm.SetDefaultHeader();
    if err.Some? {
      return null, err;
    }
    ghost var initial := dm.file;
    err := dm.LoadOrCreateDirectoryPage(encode, unmarshal);
    if err.Some? {
      return null, err;
    }
    assert |initial| >= headerSize;
    if DecodeHeader(initial[..headerSize]) == 0 {
      CreatedLayout(initial, headerSize, encode(EmptyDirectory).value);
    }
    if |contents| < headerSize {
      assert initial[..headerSize] == Zeros(headerSize);
      assert DecodeHeader(initial[..headerSize]) == 0;
    }
  }

  // ---------------------------------------------------------------- the class

  class DiskManager {
    /** The contents of the backing file. */
    var file: seq<byte>
    var directoryPage: DirectoryPage
    const headerSize: nat

    /** `updateHeader` needs room for 8 bytes; an offset must fit in an `int64`. */
    ghost predicate Valid()
    {
      8 <= headerSize < Two63
    }

    constructor (contents: seq<byte>, headerSize: nat)
      requires 8 <= headerSize < Two63
      ensures Valid() && this.headerSize == headerSize
      ensures file == contents && directoryPage == EmptyDirectory
    {
      this.file := contents;
      this.directoryPage := EmptyDirectory;
      this.headerSize := headerSize;
    }

    /** `File.ReadAt`: `n` bytes at `off`, or an error (io.EOF when the file ends first). */
    method ReadAt(n: nat, off: int) returns (r: Result<seq<byte>, Error>)
      ensures r.Ok? ==> 0 <= off && off + n <= |file| && r.value == file[off..off + n]
      ensures off < 0 ==> r == Err(NegativeOffset)
      ensures 0 <= off && off + n > |file| ==> r.Err?
    {
      if off < 0 {
        return Err(NegativeOffset);
      }
      var failed := IoFault();
      if failed {
        return Err(IoError);
      }
      if off + n > |file| {
        return Err(EndOfFile);
      }
      return Ok(file[off..off + n]);
    }

    /** `File.WriteAt`: either all of `b` lands at `off`, or nothing changes and an error is reported. */
    method WriteAt(b: seq<byte>, off: int) returns (n: nat, err: Option<Error>)
      modifies this`file
      ensures err.None? ==> 0 <= off && n == |b| && file == WriteAtImage(old(file), off, b)
      ensures err.Some? ==> n == 0 && file == old(file)
      ensures off < 0 ==> err == Some(NegativeOffset)
    {
      if off < 0 {
        return 0, Some(NegativeOffset);
      }
      var failed := IoFault();
      if failed {
        return 0, Some(IoError);
      }
      file := WriteAtImage(file, off, b);
      return |b|, None;
    }

    /** `Seek(off, io.SeekStart)` then `File.Read` of up to `n` bytes. */
    method ReadFrom(off: int, n: nat) returns (r: Result<seq<byte>, Error>)
      requires n > 0
      ensures r.Ok? ==> 0 <= off < |file| && r.value == file[off..Min(off + n, |file|)]
      ensures off < 0 || off >= |file| ==> r.Err?
    {
      if off < 0 {
        return Err(NegativeOffset);
      }
      var failed := IoFault();
      if failed {
        return Err(IoError);
      }
      if off >= |file| {
        return Err(EndOfFile);
      }
      return Ok(file[off..Min(off + n, |file|)]);
    }

    /** `readHeader`: the offset the header records, 0 when every header byte is zero. */
    method ReadHeader() returns (r: Result<Offset, Error>)
      requires Valid()
      ensures |file| < headerSize ==> r.Err?
      ensures r.Ok? ==> |file| >= headerSize && r.value == DecodeHeader(file[..headerSize])
    {
      var read := ReadAt(headerSize, 0);
      if read.Err? {
        return Err(read.error);
      }
      var headerBytes := read.value;
      var i := 0;
      while i < |headerBytes|
        invariant 0 <= i <= |headerBytes|
        invariant AllZero(headerBytes[..i])
      {
        if headerBytes[i] != 0 {
          Pow256Eight();
          return Ok(ToInt64(FromBigEndian(headerBytes[..8])));
        }
        i := i + 1;
      }
      assert headerBytes[..i] == headerBytes;
      return Ok(0);
    }

    /** `updateHeader`: rewrite the whole header to hold `offset` big-endian, then zeros. */
    method UpdateHeader(offset: Offset) returns (err: Option<Error>)
      requires Valid()
      modifies this`file
      ensures |old(file)| < headerSize ==> err.Some?
      ensures err.None? ==> |old(file)| >= headerSize && file == EncodeHeader(offset, headerSize) + old(file)[headerSize..]
      ensures err.Some? ==> file == old(file)
    {
      var offsetBytes := PutUint64(Zeros(headerSize), ToUint64(offset));
      var read := ReadAt(headerSize, 0);
      if read.Err? {
        return Some(read.error);
      }
      var headerBytes := Copy(read.value, offsetBytes);
      var _, writeErr := WriteAt(headerBytes, 0);
      return writeErr;
    }

    /** `WriteDirectoryDisk`: write the directory bytes, zero-padded to a page, right after the header. */
    method WriteDirectoryDisk(pageBytes: seq<byte>) returns (r: Result<Offset, Error>)
      requires Valid() && |pageBytes| <= PageSize
      modifies this`file
      ensures r.Ok? ==> r.value == headerSize && file == WriteAtImage(old(file), headerSize, Padded(pageBytes))
      ensures r.Ok? ==>
        file[headerSize..headerSize + PageSize] == Padded(pageBytes) &&
        forall i :: 0 <= i < |old(file)| && !(headerSize <= i < headerSize + PageSize) ==> file[i] == old(file)[i]
      ensures r.Err? ==> file == old(file)
    {
      var offset := headerSize;
      var buffer := pageBytes + Zeros(PageSize - |pageBytes|);
      var n, err := WriteAt(buffer, offset);
      if err.Some? {
        return Err(err.value);
      }
      if n != PageSize {
        return Err(ShortWrite);
      }
      return Ok(offset);
    }

    /** `createDirectoryPage`: start an empty directory, write it after the header, point the header at it. */
    method CreateDirectoryPage(encode: DirectoryPage -> Result<seq<byte>, Error>) returns (err: Option<Error>)
      requires Valid() && EncodeFits(encode)
      modifies this`file, this`directoryPage
      ensures directoryPage == EmptyDirectory
      ensures err.None? ==>
        encode(EmptyDirectory).Ok? && file == CreatedImage(old(file), headerSize, encode(EmptyDirectory).value)
      ensures err.Some? ==>
        file == old(file) ||
        (encode(EmptyDirectory).Ok? && file == WriteAtImage(old(file), headerSize, Padded(encode(EmptyDirectory).value)))
    {
      var directoryPage := EmptyDirectory;
      this.directoryPage := directoryPage;
      var dirPageBytes := encode(directoryPage);
      if dirPageBytes.Err? {
        return Some(dirPageBytes.error);
      }
      var pageLocation := WriteDirectoryDisk(dirPageBytes.value);
      if pageLocation.Err? {
        return Some(pageLocation.error);
      }
      err := UpdateHeader(pageLocation.value);
    }

    /** `LoadDirectoryPage`: read the page at `offset`, cut it at the first zero byte, decode it. */
    method LoadDirectoryPage(offset: Offset, unmarshal: (seq<byte>, DirectoryPage) -> Result<DirectoryPage, Error>)
      returns (err: Option<Error>)
      modifies this`directoryPage
      ensures offset < 0 || offset >= |file| ==> err.Some?
      ensures err.None? ==>
        0 <= offset < |file| && unmarshal(Trimmed(LoadedBlock(file, offset)), old(directoryPage)) == Ok(directoryPage)
      ensures err.Some? ==> directoryPage == old(directoryPage)
    {
      var read := ReadFrom(offset, PageSize);
      if read.Err? {
        return Some(read.error);
      }
      var dirPageBytes := read.value + Zeros(PageSize - |read.value|);
      assert dirPageBytes == LoadedBlock(file, offset);
      var endIndex := ScanEndIndex(dirPageBytes);
      var decoded := unmarshal(dirPageBytes[..endIndex], directoryPage);
      if decoded.Err? {
        return Some(decoded.error);
      }
      directoryPage := decoded.value;
      return None;
    }

    /** `loadOrCreateDirectoryPage`: create the directory when the header reads 0, else load it. */
    method LoadOrCreateDirectoryPage(encode: DirectoryPage -> Result<seq<byte>, Error>,
                                     unmarshal: (seq<byte>, DirectoryPage) -> Result<DirectoryPage, Error>)
      returns (err: Option<Error>)
      requires Valid() && EncodeFits(encode)
      modifies this`file, this`directoryPage
      ensures |old(file)| < headerSize ==> err.Some?
      ensures err.None? ==> |old(file)| >= headerSize
      ensures err.None? && |old(file)| >= headerSize && DecodeHeader(old(file)[..headerSize]) == 0 ==>
        directoryPage == EmptyDirectory && encode(EmptyDirectory).Ok? &&
        file == CreatedImage(old(file), headerSize, encode(EmptyDirectory).value)
      ensures err.None? && |old(file)| >= headerSize && DecodeHeader(old(file)[..headerSize]) != 0 ==>
        var offset := DecodeHeader(old(file)[..headerSize]);
        file == old(file) && 0 <= offset < |file| &&
        unmarshal(Trimmed(LoadedBlock(file, offset)), old(directoryPage)) == Ok(directoryPage)
    {
      var directoryPageOffset := ReadHeader();
      if directoryPageOffset.Err? {
        return Some(directoryPageOffset.error);
      }
      if directoryPageOffset.value == 0 {
        err := CreateDirectoryPage(encode);
        return;
      }
      err := LoadDirectoryPage(directoryPageOffset.value, unmarshal);
    }

    /** `initializeHeader`: `File.Write` of `headerSize` zero bytes at the start of the file. */
    method InitializeHeader() returns (err: Option<Error>)
      requires Valid()
      modifies this`file
      ensures err.None? ==> file == WriteAtImage(old(file), 0, Zeros(headerSize))
      ensures err.Some? ==> file == old(file)
    {
      var defaultHeader := Zeros(headerSize);
      var _, writeErr := WriteAt(defaultHeader, 0);
      return writeErr;
    }

    /** `SetDefaultHeader`: give a file shorter than the header an all-zero header; leave others alone. */
    method SetDefaultHeader() returns (err: Option<Error>)
      requires Valid()
      modifies this`file
      ensures |old(file)| >= headerSize ==> file == old(file)
      ensures err.None? && |old(file)| < headerSize ==> file == Zeros(headerSize)
      ensures err.Some? ==> file == old(file)
    {
      var failed := IoFault();
      if failed {
        return Some(IoError);
      }
      var fileSize := |file|;
      if fileSize < headerSize {
        err := InitializeHeader();
        return;
      }
      return None;
    }
  }
}
