/** The five block kinds of a Pignoufs container as structured values, and the
    4000-byte image each of them occupies on disk.

    A block holds a payload, the digest stored after it and a kind tag. The code
    reaches blocks through pointer casts (`struct inode *` onto whatever block an index
    names), so the payload is kept in whatever shape was last written, and the views
    `AsInode`, `AsWords`, `AsBytes`, `AsBits`, `AsSuper` reinterpret it through its byte
    image exactly as a cast does. The digest is a function of that image only.
 */
module Blocks {
  import opened Codec

  type i32 = x: int | IsI32(x)
  type u32 = x: int | IsU32(x)

  /** The pointer value meaning "no block". */
  const NoBlock: i32 := -1

  type Data = s: seq<byte> | |s| == 4000 witness seq(4000, _ => 0 as byte)
  type Bitmap = s: seq<bool> | |s| == 32000 witness seq(32000, _ => false)
  type Addresses = s: seq<i32> | |s| == 1000 witness seq(1000, _ => NoBlock)
  type Name = s: seq<byte> | |s| == 256 witness seq(256, _ => 0 as byte)
  type Direct = s: seq<i32> | |s| == 900 witness seq(900, _ => NoBlock)
  type Extension = s: seq<byte> | |s| == 116 witness seq(116, _ => 0 as byte)
  type Magic = s: seq<byte> | |s| == 8 witness seq(8, _ => 0 as byte)
  type Padding = s: seq<byte> | |s| == 3972 witness seq(3972, _ => 0 as byte)

  // Kind tags stored at byte 4020 of every block.
  const TagSuper: u32 := 1
  const TagBitmap: u32 := 2
  const TagInode: u32 := 3
  const TagFree: u32 := 4
  const TagData: u32 := 5
  const TagSingle: u32 := 6
  const TagDouble: u32 := 7

  // Inode flag bits.
  const FlagExists: bv32 := 1
  const FlagRead: bv32 := 2
  const FlagWrite: bv32 := 4
  const FlagReadLock: bv32 := 8
  const FlagWriteLock: bv32 := 16
  const FlagDir: bv32 := 32

  /** The inode fields in declaration order; `depth` is the `profondeur` word. */
  datatype Inode = Inode(
    flags: bv32,
    size: u32,
    ctime: u32,
    atime: u32,
    mtime: u32,
    name: Name,
    direct: Direct,
    indirect: i32,
    depth: u32,
    ext: Extension)

  datatype Super = Super(
    magic: Magic,
    nbB: i32,
    nbI: i32,
    nbA: i32,
    nbL: i32,
    nbF: i32,
    zero: Padding)

  datatype Payload =
    | SuperP(sb: Super)
    | BitsP(bits: Bitmap)
    | InodeP(ino: Inode)
    | BytesP(data: Data)
    | WordsP(words: Addresses)

  /** A SHA-1 digest, idealised as the digested bytes themselves: two digests agree
      exactly when the images agree. */
  datatype Digest = Sha1(image: seq<byte>)

  datatype Block = Block(payload: Payload, hash: Digest, tag: u32)

  predicate Has(flags: bv32, bit: bv32) {
    flags & bit != 0
  }

  // ---------------------------------------------------------------------------
  // Byte images

  function SuperBytes(s: Super): (bs: seq<byte>)
    ensures |bs| == 4000
  {
    s.magic + U32Bytes(s.nbB) + U32Bytes(s.nbI) + U32Bytes(s.nbA)
      + U32Bytes(s.nbL) + U32Bytes(s.nbF) + s.zero
  }

  function InodeBytes(n: Inode): (bs: seq<byte>)
    ensures |bs| == 4000
  {
    U32Bytes(n.flags as int) + U32Bytes(n.size) + U32Bytes(n.ctime) + U32Bytes(n.atime)
      + U32Bytes(n.mtime) + n.name + EncodeWords(n.direct) + U32Bytes(n.indirect)
      + U32Bytes(n.depth) + n.ext
  }

  /** The 4000 bytes a payload occupies. */
  function Image(p: Payload): (bs: seq<byte>)
    ensures |bs| == 4000
  {
    match p
    case SuperP(s) => SuperBytes(s)
    case BitsP(bits) => PackBits(bits)
    case InodeP(n) => InodeBytes(n)
    case BytesP(d) => d
    case WordsP(w) => EncodeWords(w)
  }

  function DecodeSuper(bs: seq<byte>): Super
    requires |bs| == 4000
  {
    Super(bs[0..8], I32Of(bs[8..12]), I32Of(bs[12..16]), I32Of(bs[16..20]),
          I32Of(bs[20..24]), I32Of(bs[24..28]), bs[28..4000])
  }

  function DecodeInode(bs: seq<byte>): Inode
    requires |bs| == 4000
  {
    Inode(U32Of(bs[0..4]) as bv32, U32Of(bs[4..8]), U32Of(bs[8..12]), U32Of(bs[12..16]),
          U32Of(bs[16..20]), bs[20..276], DecodeWords(bs[276..3876]), I32Of(bs[3876..3880]),
          U32Of(bs[3880..3884]), bs[3884..4000])
  }

  // ---------------------------------------------------------------------------
  // Views: a block read through a pointer of a given struct type

  function AsSuper(p: Payload): Super {
    if p.SuperP? then p.sb else DecodeSuper(Image(p))
  }

  function AsInode(p: Payload): Inode {
    if p.InodeP? then p.ino else DecodeInode(Image(p))
  }

  function AsBytes(p: Payload): Data {
    Image(p)
  }

  function AsWords(p: Payload): Addresses {
    if p.WordsP? then p.words else DecodeWords(Image(p))
  }

  function AsBits(p: Payload): Bitmap {
    if p.BitsP? then p.bits else UnpackBits(Image(p))
  }

  /** `calcul_sha1` over the 4000-byte payload. */
  function Hash(p: Payload): Digest {
    Sha1(Image(p))
  }

  /** A block whose stored digest matches its payload. */
  predicate Sealed(b: Block) {
    b.hash == Hash(b.payload)
  }

  // ---------------------------------------------------------------------------
  // Every view agrees with the byte image

  lemma SuperRoundTrip(s: Super)
    ensures DecodeSuper(SuperBytes(s)) == s
  {
    var bs := SuperBytes(s);
    var head := s.magic + U32Bytes(s.nbB) + U32Bytes(s.nbI) + U32Bytes(s.nbA)
      + U32Bytes(s.nbL) + U32Bytes(s.nbF);
    assert |head| == 28 && bs == head + s.zero;
    assert bs[0..8] == s.magic;
    assert bs[8..12] == U32Bytes(s.nbB);
    assert bs[12..16] == U32Bytes(s.nbI);
    assert bs[16..20] == U32Bytes(s.nbA);
    assert bs[20..24] == U32Bytes(s.nbL);
    assert bs[24..28] == U32Bytes(s.nbF);
    assert bs[28..4000] == s.zero;
    I32RoundTrip(s.nbB);
    I32RoundTrip(s.nbI);
    I32RoundTrip(s.nbA);
    I32RoundTrip(s.nbL);
    I32RoundTrip(s.nbF);
  }

  lemma InodeRoundTrip(n: Inode)
    ensures DecodeInode(InodeBytes(n)) == n
  {
    var bs := InodeBytes(n);
    var head := U32Bytes(n.flags as int) + U32Bytes(n.size) + U32Bytes(n.ctime) + U32Bytes(n.atime)
      + U32Bytes(n.mtime);
    var tail := U32Bytes(n.indirect) + U32Bytes(n.depth) + n.ext;
    assert bs == head + n.name + EncodeWords(n.direct) + tail;
    assert bs[0..4] == U32Bytes(n.flags as int);
    assert bs[4..8] == U32Bytes(n.size);
    assert bs[8..12] == U32Bytes(n.ctime);
    assert bs[12..16] == U32Bytes(n.atime);
    assert bs[16..20] == U32Bytes(n.mtime);
    assert bs[20..276] == n.name;
    assert bs[276..3876] == EncodeWords(n.direct);
    assert bs[3876..3880] == U32Bytes(n.indirect);
    assert bs[3880..3884] == U32Bytes(n.depth);
    assert bs[3884..4000] == n.ext;
    U32RoundTrip(n.flags as int);
    U32RoundTrip(n.size);
    U32RoundTrip(n.ctime);
    U32RoundTrip(n.atime);
    U32RoundTrip(n.mtime);
    WordsRoundTrip(n.direct);
    I32RoundTrip(n.indirect);
    U32RoundTrip(n.depth);
  }

  /** Reading any block through any struct type is the same as decoding its bytes:
      the structured payload never disagrees with the on-disk image. */
  lemma ViewsAgreeWithImage(p: Payload)
    ensures AsSuper(p) == DecodeSuper(Image(p))
    ensures AsInode(p) == DecodeInode(Image(p))
    ensures |Image(p)| % 4 == 0 && AsWords(p) == DecodeWords(Image(p))
    ensures AsBits(p) == UnpackBits(Image(p))
  {
    SuperView(p);
    InodeView(p);
    WordsView(p);
    BitsView(p);
  }

  lemma SuperView(p: Payload)
    ensures AsSuper(p) == DecodeSuper(Image(p))
  {
    if p.SuperP? {
      SuperRoundTrip(p.sb);
    }
  }

  lemma InodeView(p: Payload)
    ensures AsInode(p) == DecodeInode(Image(p))
  {
    if p.InodeP? {
      InodeRoundTrip(p.ino);
    }
  }

  lemma WordsView(p: Payload)
    ensures |Image(p)| % 4 == 0 && AsWords(p) == DecodeWords(Image(p))
  {
    if p.WordsP? {
      WordsRoundTrip(p.words);
    }
  }

  lemma BitsView(p: Payload)
    ensures AsBits(p) == UnpackBits(Image(p))
  {
    if p.BitsP? {
      BitsRoundTrip(p.bits);
    }
  }

  /** Rewriting a payload in a different shape with the same bytes leaves every view
      and the digest unchanged. */
  lemma SameImageSameViews(p: Payload, q: Payload)
    requires Image(p) == Image(q)
    ensures AsInode(p) == AsInode(q) && AsWords(p) == AsWords(q) && AsBits(p) == AsBits(q)
    ensures AsSuper(p) == AsSuper(q) && AsBytes(p) == AsBytes(q) && Hash(p) == Hash(q)
  {
    ViewsAgreeWithImage(p);
    ViewsAgreeWithImage(q);
  }

  /** The depth word of the model's inode sits at bytes 3880..3884, between the
      indirect pointer and the extension area. */
  lemma DepthWordOffset(n: Inode)
    ensures InodeBytes(n)[3880..3884] == U32Bytes(n.depth)
    ensures InodeBytes(n)[3876..3880] == U32Bytes(n.indirect)
  {
    InodeRoundTrip(n);
    var head := U32Bytes(n.flags as int) + U32Bytes(n.size) + U32Bytes(n.ctime) + U32Bytes(n.atime)
      + U32Bytes(n.mtime) + n.name + EncodeWords(n.direct);
    assert InodeBytes(n) == head + U32Bytes(n.indirect) + U32Bytes(n.depth) + n.ext;
  }
}
