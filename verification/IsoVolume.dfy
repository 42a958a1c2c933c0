/**
 Reading back the volume descriptors and the boot catalog of internal/purefs/iso9660.go (section 8 of
 ECMA-119, and El Torito).
 */
module IsoVolume {
  import opened Basics
  import opened Codec
  import opened Seqs
  import opened IsoRecord
  import opened IsoTree
  import opened IsoLayout
  import opened IsoImage

  // ---------- the primary volume descriptor ----------

  lemma FrontStarts(volumeID: Bytes, ly: Layout, time: Bytes)
    requires |time| == 7
    ensures var front := PvdFront(volumeID, ly, time);
            && front[..7] == [1, 67, 68, 48, 48, 49, 1] && front[40..72] == PadStr(volumeID, 32)
            && front[80..88] == Both32(ly.total % U32)
            && front[120..124] == front[124..128] == [1, 0, 0, 1] && front[128..132] == [0, 8, 8, 0]
  {
    hide RootRecord, At, PadStr, LE, BE, Both32;
    var front := PvdFront(volumeID, ly, time);
    var start, id := [1] + CD001 + [1, 0] + PadStr(TACKLEBOX, 32), PadStr(volumeID, 32);
    assert front[..7] == [1] + CD001 + [1, 0][..1];
    assert front[..80] == start + id + Zeros(8);
    assert front[..88] == front[..80] + Both32(ly.total % U32);
    assert front[40..72] == front[..80][40..72] && front[80..88] == front[..88][80..88];
  }

  lemma FrontEnds(volumeID: Bytes, ly: Layout, time: Bytes)
    requires |time| == 7
    ensures var front := PvdFront(volumeID, ly, time);
            && front[132..140] == Both32(ly.tableLen % U32) && front[140..144] == LE(ly.tableL % U32, 4)
            && front[148..152] == BE(ly.tableM % U32, 4)
            && front[156..190] == RootRecord(At(ly.extents, []), At(ly.sizes, []), time)
  {
    hide RootRecord, At, PadStr, LE, BE, Both32;
  }

  lemma RootReads(extent: nat, size: nat, time: Bytes)
    requires |time| == 7
    ensures var b := RootRecord(extent, size, time);
            && ReadBoth(b[2..10]) == Some(extent % U32) && ReadBoth(b[10..18]) == Some(size % U32)
            && b[0] == 34 && b[25] == 2
  {
    hide ReadBoth, Both32;
    BothReadsBack(extent % U32);
    BothReadsBack(size % U32);
    var b := RootRecord(extent, size, time);
    assert b[2..10] == Both32(extent % U32) && b[10..18] == Both32(size % U32);
  }

  /** The descriptor of a layout, as far as `VolumeOf` looks. */
  ghost predicate Describes(pvd: Bytes, volumeID: Bytes, ly: Layout, time: Bytes)
    requires |pvd| == SECTOR && |time| == 7
  {
    && pvd[..7] == [1, 67, 68, 48, 48, 49, 1] && pvd[881] == 1 && pvd[40..72] == PadStr(volumeID, 32)
    && pvd[80..88] == Both32(ly.total % U32)
    && pvd[120..124] == pvd[124..128] == [1, 0, 0, 1] && pvd[128..132] == [0, 8, 8, 0]
    && pvd[132..140] == Both32(ly.tableLen % U32) && pvd[140..144] == LE(ly.tableL % U32, 4)
    && pvd[148..152] == BE(ly.tableM % U32, 4)
    && pvd[156..190] == RootRecord(At(ly.extents, []), At(ly.sizes, []), time)
  }

  lemma PvdDescribes(volumeID: Bytes, ly: Layout, time: Bytes, date: Bytes)
    requires |time| == 7 && |date| == 17
    ensures Describes(Pvd(volumeID, ly, time, date), volumeID, ly, time)
  {
    hide PvdFront, RootRecord, At, PadStr, LE, BE, Both32;
    var pvd, front := Pvd(volumeID, ly, time, date), PvdFront(volumeID, ly, time);
    FrontStarts(volumeID, ly, time);
    FrontEnds(volumeID, ly, time);
    assert front <= pvd;
    forall i, j | 0 <= i <= j <= 190 ensures pvd[i..j] == front[i..j] { SliceInPrefix(front, pvd, i, j); }
    assert pvd[..7] == pvd[0..7] && front[..7] == front[0..7];
  }

  /** Label, size, root directory and path tables. */
  lemma VolumeReads(volumeID: Bytes, ly: Layout, time: Bytes, date: Bytes)
    requires |time| == 7 && |date| == 17
    ensures VolumeOf(Pvd(volumeID, ly, time, date))
         == Some(Volume(PadStr(volumeID, 32), ly.total % U32, Where(At(ly.extents, []) % U32, At(ly.sizes, []) % U32),
                        ly.tableLen % U32, ly.tableL % U32, ly.tableM % U32))
  {
    hide Pvd, At, PadStr, ReadBoth, Both32, RootRecord, UnLE, UnBE, LE, BE, Pow256;
    Widths();
    PvdDescribes(volumeID, ly, time, date);
    RootReads(At(ly.extents, []), At(ly.sizes, []), time);
    BothReadsBack(ly.total % U32);
    BothReadsBack(ly.tableLen % U32);
    ShortReads(1, 0);
    ShortReads(0, 8);
    UnLEofLE(ly.tableL % U32, 4);
    UnBEofBE(ly.tableM % U32, 4);
  }

  /** Creation and modification date are where sections 8.4.26 and 8.4.27 of ECMA-119 have them. */
  lemma DatesRead(volumeID: Bytes, ly: Layout, time: Bytes, date: Bytes)
    requires |time| == 7 && |date| == 17
    ensures var pvd := Pvd(volumeID, ly, time, date); pvd[813..830] == pvd[830..847] == date
  {
    hide PvdFront, PadStr;
    var pvd := Pvd(volumeID, ly, time, date);
    var front := PvdFront(volumeID, ly, time) + (PadStr([], 128) + PadStr(TACKLEBOX, 128) + PadStr([], 128)
      + PadStr(TACKLEBOX + [32, 80, 85, 82, 69, 70, 83], 128) + Zeros(111));
    assert |front| == 813 && pvd[..847] == front + date + date;
    assert pvd[813..830] == pvd[..847][813..830] && pvd[830..847] == pvd[..847][830..847];
  }

  /** The label of a volume: the identifier asked for, cut or filled with spaces to 32 bytes. */
  ghost predicate IsLabel(id: Bytes, volumeID: Bytes) {
    var n := Min(|volumeID|, 32);
    |id| == 32 && id[..n] == volumeID[..n] && forall i | n <= i < 32 :: id[i] == 32
  }

  lemma Labelled(volumeID: Bytes)
    ensures IsLabel(PadStr(volumeID, 32), volumeID)
  {
  }

  lemma DescriptorStarts(ly: Layout)
    ensures Brvd(ly)[..7] == [0, 67, 68, 48, 48, 49, 1]
    ensures |TERMINATOR| == SECTOR && TERMINATOR[..7] == [255, 67, 68, 48, 48, 49, 1]
  {
    hide PadStr, LE;
    assert Brvd(ly)[..7] == [0] + CD001 + [1] && TERMINATOR[..7] == [255] + CD001 + [1];
  }

  lemma VolumeFound(img: Bytes, ly: Layout, stamp: Stamp)
    requires stamp.Valid() && Present(img, 16, Pvd(stamp.volumeID, ly, stamp.time, stamp.date))
    requires Present(img, 17, Brvd(ly)) && Present(img, 18, TERMINATOR)
    ensures ReadVolume(img).Some? && IsLabel(ReadVolume(img).value.id, stamp.volumeID)
    ensures var v := ReadVolume(img).value;
            && v.sectors == ly.total % U32 && v.root == Where(At(ly.extents, []) % U32, At(ly.sizes, []) % U32)
            && v.tableLen == ly.tableLen % U32 && v.tableL == ly.tableL % U32 && v.tableM == ly.tableM % U32
  {
    hide Pvd, Brvd, TERMINATOR, VolumeOf, At, PadStr, Extent;
    DescriptorStarts(ly);
    VolumeReads(stamp.volumeID, ly, stamp.time, stamp.date);
    Labelled(stamp.volumeID);
  }

  // ---------- the boot record and its catalog ----------

  lemma BrvdReads(ly: Layout)
    requires ly.catalog < U32
    ensures Field(Brvd(ly), 71, 4) == ly.catalog && IsBootRecord(Brvd(ly))
  {
    hide UnLE, LE;
    Widths();
    UnLEofLE(ly.catalog, 4);
    assert Brvd(ly)[71..75] == LE(ly.catalog, 4);
    DescriptorStarts(ly);
    assert Brvd(ly)[7..30] == PadStr(EL_TORITO, 32)[..23] == EL_TORITO;
  }

  /** 512-byte sectors of the boot image, or zero for as many as firmware likes. */
  function LoadCount(size: nat): nat {
    if size < 0x1_0000 * 512 then size / 512 else 0
  }

  lemma CatalogReads(ly: Layout, bootSize: nat, bootExtent: nat)
    requires bootExtent < U32
    ensures BootOf(Catalog(ly, bootSize, bootExtent)) == Some(Boot(bootExtent, LoadCount(bootSize)))
  {
    hide UnLE, LE, Validation, WordSum;
    Widths();
    ChecksumIsZero();
    ValidationStarts();
    var cat, count := Catalog(ly, bootSize, bootExtent), LoadCount(bootSize);
    UnLEofLE(bootExtent, 4);
    UnLEofLE(count, 2);
    assert cat[..32] == Validation() && cat[32..34] == [0x88, 0];
    assert cat[..2] == cat[..32][..2] && cat[30..32] == cat[..32][30..32];
    assert cat[38..40] == LE(count, 2) && cat[40..44] == LE(bootExtent, 4);
  }

  lemma ValidationStarts()
    ensures Validation()[..2] == [1, 0xEF] && Validation()[30..32] == [0x55, 0xAA]
  {
    hide WordSum, LE, PadStr;
  }

  lemma BootFound(img: Bytes, ly: Layout, bootSize: nat, bootExtent: nat)
    requires ly.catalog < U32 && bootExtent < U32
    requires Present(img, 17, Brvd(ly)) && Present(img, ly.catalog, Catalog(ly, bootSize, bootExtent))
    ensures ReadBoot(img) == Some(Boot(bootExtent, LoadCount(bootSize)))
  {
    hide Brvd, Catalog, Field, IsBootRecord, BootOf, Extent;
    BrvdReads(ly);
    CatalogReads(ly, bootSize, bootExtent);
  }
}
