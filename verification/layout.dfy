/** The byte layout of the five block kinds declared in include/structures.h.

    Every block is 4096 bytes: a 4000-byte payload whose fields depend on the kind,
    then a common trailer made of a 20-byte SHA-1 digest, a 4-byte kind tag and 72
    bytes of padding. A layout is a list of named fields; offsets are prefix sums.
 */
module Layout {

  datatype Field = Field(name: string, size: nat)

  /** Total size of a list of fields. */
  function Size(fields: seq<Field>): nat
  {
    if |fields| == 0 then 0 else fields[0].size + Size(fields[1..])
  }

  /** Byte offset of the field called `name`, or the total size when there is none. */
  function OffsetOf(fields: seq<Field>, name: string): nat
  {
    if |fields| == 0 || fields[0].name == name then 0
    else fields[0].size + OffsetOf(fields[1..], name)
  }

  lemma {:induction false} SizeAppend(a: seq<Field>, b: seq<Field>)
    ensures Size(a + b) == Size(a) + Size(b)
  {
    if |a| > 0 {
      assert (a + b)[1..] == a[1..] + b;
      SizeAppend(a[1..], b);
    } else {
      assert a + b == b;
    }
  }

  /** A field found in the first part of a layout keeps its offset when more fields follow. */
  lemma {:induction false} OffsetOfAppend(a: seq<Field>, b: seq<Field>, name: string)
    requires exists i :: 0 <= i < |a| && a[i].name == name
    ensures OffsetOf(a + b, name) == OffsetOf(a, name)
  {
    if a[0].name != name {
      assert (a + b)[1..] == a[1..] + b;
      var i :| 0 <= i < |a| && a[i].name == name;
      assert a[1..][i - 1].name == name;
      OffsetOfAppend(a[1..], b, name);
    }
  }

  const PayloadSize: nat := 4000
  const BlockSize: nat := 4096

  /** sha1, type, padding: shared by every block kind. */
  const Trailer: seq<Field> := [Field("sha1", 20), Field("type", 4), Field("padding", 72)]

  /** struct pignoufs without its trailer. */
  const SuperPayload: seq<Field> :=
    [Field("magic", 8), Field("nb_b", 4), Field("nb_i", 4), Field("nb_a", 4),
     Field("nb_l", 4), Field("nb_f", 4), Field("zero", 3972)]

  const BitmapPayload: seq<Field> := [Field("bits", 4000)]

  /** struct inode up to and including `extensions`, as declared in the header. */
  const InodePayload: seq<Field> :=
    [Field("flags", 4), Field("file_size", 4), Field("creation_time", 4),
     Field("access_time", 4), Field("modification_time", 4), Field("filename", 256),
     Field("direct_blocks", 900 * 4), Field("double_indirect_block", 4),
     Field("extensions", 120)]

  /** The inode payload the model serialises: the code reads and writes a depth word
      (`profondeur`) that the header does not declare; the model puts it right after
      the indirect pointer and takes its four bytes from the extension area. */
  const ModelInodePayload: seq<Field> :=
    [Field("flags", 4), Field("file_size", 4), Field("creation_time", 4),
     Field("access_time", 4), Field("modification_time", 4), Field("filename", 256),
     Field("direct_blocks", 900 * 4), Field("double_indirect_block", 4),
     Field("profondeur", 4), Field("extensions", 116)]

  const DataPayload: seq<Field> := [Field("data", 4000)]

  const AddressPayload: seq<Field> := [Field("addresses", 1000 * 4)]

  /** Every block kind: its payload layout followed by the common trailer. */
  function BlockLayout(payload: seq<Field>): seq<Field>
  {
    payload + Trailer
  }

  lemma TrailerSize()
    ensures Size(Trailer) == 96
    ensures OffsetOf(Trailer, "sha1") == 0
    ensures OffsetOf(Trailer, "type") == 20
  {
    assert Trailer[1..][1..][1..] == [];
  }

  /** A 4000-byte payload followed by the trailer makes a 4096-byte block whose digest
      sits at byte 4000 and whose tag sits at byte 4020. */
  lemma {:induction false} Framed(payload: seq<Field>)
    requires Size(payload) == PayloadSize
    requires forall i :: 0 <= i < |payload| ==> payload[i].name != "sha1" && payload[i].name != "type"
    ensures Size(BlockLayout(payload)) == BlockSize
    ensures OffsetOf(BlockLayout(payload), "sha1") == PayloadSize
    ensures OffsetOf(BlockLayout(payload), "type") == PayloadSize + 20
  {
    SizeAppend(payload, Trailer);
    TrailerSize();
    OffsetPastPayload(payload, "sha1");
    OffsetPastPayload(payload, "type");
  }

  lemma {:induction false} OffsetPastPayload(payload: seq<Field>, name: string)
    requires forall i :: 0 <= i < |payload| ==> payload[i].name != name
    ensures OffsetOf(payload + Trailer, name) == Size(payload) + OffsetOf(Trailer, name)
  {
    if |payload| > 0 {
      assert (payload + Trailer)[1..] == payload[1..] + Trailer;
      OffsetPastPayload(payload[1..], name);
    } else {
      assert payload + Trailer == Trailer;
    }
  }

  /** The superblock: magic, five counters and padding fill exactly 4000 bytes. */
  lemma SuperblockIsOneBlock()
    ensures Size(SuperPayload) == PayloadSize
    ensures Size(BlockLayout(SuperPayload)) == BlockSize
    ensures OffsetOf(BlockLayout(SuperPayload), "sha1") == PayloadSize
  {
    var p := SuperPayload;
    assert p[1..][1..][1..][1..][1..][1..][1..] == [];
    Framed(p);
  }

  /** A bitmap block: 4000 bytes of bits, then the trailer. */
  lemma BitmapIsOneBlock()
    ensures Size(BitmapPayload) == PayloadSize
    ensures Size(BlockLayout(BitmapPayload)) == BlockSize
    ensures OffsetOf(BlockLayout(BitmapPayload), "type") == PayloadSize + 20
  {
    assert BitmapPayload[1..] == [];
    Framed(BitmapPayload);
  }

  /** The header's inode fields up to `extensions` total 4000 bytes. */
  lemma InodeIsOneBlock()
    ensures Size(InodePayload) == PayloadSize
    ensures Size(BlockLayout(InodePayload)) == BlockSize
    ensures OffsetOf(BlockLayout(InodePayload), "type") == PayloadSize + 20
  {
    var p := InodePayload;
    assert p[1..][1..][1..][1..][1..][1..][1..][1..][1..] == [];
    Framed(p);
  }

  /** The model's inode fields also total 4000 bytes and agree with the header's on
      everything before the depth word, which is carved out of the extension area. */
  lemma ModelInodeIsOneBlock()
    ensures Size(ModelInodePayload) == PayloadSize
    ensures InodePayload[..8] == ModelInodePayload[..8]
    ensures Size(ModelInodePayload[8..]) == Size(InodePayload[8..])
  {
    ModelInodeSize();
    ModelInodeTail();
  }

  lemma ModelInodeSize()
    ensures Size(ModelInodePayload) == PayloadSize
  {
    var q := ModelInodePayload;
    assert q[1..][1..][1..][1..][1..][1..][1..][1..][1..][1..] == [];
  }

  lemma ModelInodeTail()
    ensures InodePayload[..8] == ModelInodePayload[..8]
    ensures Size(ModelInodePayload[8..]) == Size(InodePayload[8..])
  {
    assert ModelInodePayload[8..][1..][1..] == [];
    assert InodePayload[8..][1..] == [];
  }

  /** Data and address blocks: 4000 bytes or 1000 int32 entries, then the trailer. */
  lemma DataAndAddressAreOneBlock()
    ensures Size(DataPayload) == PayloadSize
    ensures Size(AddressPayload) == PayloadSize
    ensures Size(BlockLayout(DataPayload)) == BlockSize
    ensures Size(BlockLayout(AddressPayload)) == BlockSize
    ensures OffsetOf(BlockLayout(AddressPayload), "sha1") == PayloadSize
  {
    assert DataPayload[1..] == [];
    assert AddressPayload[1..] == [];
    Framed(DataPayload);
    Framed(AddressPayload);
  }

  /** Field offsets of the inode as the model serialises it: the name and the direct
      pointers. */
  lemma ModelInodeOffsets()
    ensures OffsetOf(ModelInodePayload, "filename") == 20
    ensures OffsetOf(ModelInodePayload, "direct_blocks") == 276
  {
    var p := ModelInodePayload;
    assert p[1..][1..][1..][1..][1..][0].name == "filename";
    assert p[1..][1..][1..][1..][1..][1..][0].name == "direct_blocks";
  }

  /** The indirect pointer, the depth word and the extension area close the inode. */
  lemma ModelInodeTailOffsets()
    ensures OffsetOf(ModelInodePayload, "double_indirect_block") == 3876
    ensures OffsetOf(ModelInodePayload, "profondeur") == 3880
    ensures OffsetOf(ModelInodePayload, "extensions") == 3884
  {
    IndirectOffset();
    DepthOffset();
    ExtensionOffset();
  }

  lemma IndirectOffset()
    ensures OffsetOf(ModelInodePayload, "double_indirect_block") == 3876
  {
    var p := ModelInodePayload;
    assert p[1..][1..][1..][1..][1..][1..][1..][0].name == "double_indirect_block";
  }

  lemma DepthOffset()
    ensures OffsetOf(ModelInodePayload, "profondeur") == 3880
  {
    var p := ModelInodePayload;
    assert p[1..][1..][1..][1..][1..][1..][1..][1..][0].name == "profondeur";
  }

  lemma ExtensionOffset()
    ensures OffsetOf(ModelInodePayload, "extensions") == 3884
  {
    var p := ModelInodePayload;
    assert p[1..][1..][1..][1..][1..][1..][1..][1..][1..][0].name == "extensions";
  }

  /** The superblock's magic string sits at byte 0 and its counters follow it in order. */
  lemma SuperOffsets()
    ensures OffsetOf(SuperPayload, "magic") == 0
    ensures OffsetOf(SuperPayload, "nb_b") == 8
    ensures OffsetOf(SuperPayload, "nb_l") == 20
    ensures OffsetOf(SuperPayload, "nb_f") == 24
    ensures OffsetOf(SuperPayload, "zero") == 28
  {
    var p := SuperPayload;
    assert p[1..][1..][1..][1..][1..][1..][0].name == "zero";
  }
}
