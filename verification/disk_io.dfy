/**
 * The RAM-backed disk behind the FAT driver: 2048 sectors of 512 bytes, the driver
 * entry points the FAT library calls, and the mount-or-format start-up sequence.
 */
module DiskIo {
  import opened Common
  import StringLib

  const SECTOR_SIZE: nat := 512
  const SECTOR_COUNT: nat := 2048
  const DISK_SIZE: nat := SECTOR_SIZE * SECTOR_COUNT
  const UINT32_LIMIT: nat := 0x1_0000_0000

  datatype Disk = Disk(bytes: seq<Byte>)
  {
    predicate Valid() {
      |bytes| == DISK_SIZE
    }
  }

  /**
   * The request the driver accepts: at least one sector, all on the disk. The 32-bit
   * sum `sector + count` must not wrap for the check to mean this.
   */
  predicate InRange(sector: nat, count: nat) {
    count != 0 && sector + count <= SECTOR_COUNT
  }

  predicate NoWrap(sector: nat, count: nat) {
    sector + count < UINT32_LIMIT
  }

  /** The bytes of sectors `sector` to `sector + count - 1`. */
  function ReadSectors(d: Disk, sector: nat, count: nat): (data: seq<Byte>)
    requires d.Valid() && InRange(sector, count)
    ensures |data| == count * SECTOR_SIZE
    ensures forall k :: 0 <= k < |data| ==> data[k] == d.bytes[sector * SECTOR_SIZE + k]
  {
    d.bytes[sector * SECTOR_SIZE..(sector + count) * SECTOR_SIZE]
  }

  /** The disk with sectors `sector` to `sector + count - 1` replaced by the start of `data`. */
  function WriteSectors(d: Disk, sector: nat, count: nat, data: seq<Byte>): (r: Disk)
    requires d.Valid() && InRange(sector, count) && count * SECTOR_SIZE <= |data|
    ensures r.Valid()
    ensures forall k :: 0 <= k < DISK_SIZE ==>
      r.bytes[k] == if sector * SECTOR_SIZE <= k < (sector + count) * SECTOR_SIZE
                    then data[k - sector * SECTOR_SIZE] else d.bytes[k]
  {
    var lo, hi := sector * SECTOR_SIZE, (sector + count) * SECTOR_SIZE;
    Disk(d.bytes[..lo] + data[..hi - lo] + d.bytes[hi..])
  }

  /** `os_disk_read`: -1 and nothing copied for a bad request, else the sectors copied into `buff`. */
  method OsDiskRead(d: Disk, buff: seq<Byte>, sector: nat, count: nat) returns (status: int, out: seq<Byte>)
    requires d.Valid() && NoWrap(sector, count)
    requires InRange(sector, count) ==> count * SECTOR_SIZE <= |buff|
    ensures status == 0 || status == -1
    ensures status == -1 <==> !InRange(sector, count)
    ensures status == -1 ==> out == buff
    ensures status == 0 ==> |out| == |buff| && out[..count * SECTOR_SIZE] == ReadSectors(d, sector, count)
                            && out[count * SECTOR_SIZE..] == buff[count * SECTOR_SIZE..]
  {
    if sector + count > SECTOR_COUNT || count == 0 {
      return -1, buff;
    }
    var src := d.bytes[sector * SECTOR_SIZE..];
    out := StringLib.Memcpy(buff, src, count * SECTOR_SIZE);
    assert src[..count * SECTOR_SIZE] == ReadSectors(d, sector, count);
    status := 0;
  }

  /** `os_disk_write`: -1 and no change for a bad request, else the sectors overwritten from `buff`. */
  method OsDiskWrite(d: Disk, buff: seq<Byte>, sector: nat, count: nat) returns (status: int, r: Disk)
    requires d.Valid() && NoWrap(sector, count)
    requires InRange(sector, count) ==> count * SECTOR_SIZE <= |buff|
    ensures status == 0 || status == -1
    ensures status == -1 <==> !InRange(sector, count)
    ensures status == -1 ==> r == d
    ensures status == 0 ==> r == WriteSectors(d, sector, count, buff)
  {
    if sector + count > SECTOR_COUNT || count == 0 {
      return -1, d;
    }
    var lo := sector * SECTOR_SIZE;
    var tail := StringLib.Memcpy(d.bytes[lo..], buff, count * SECTOR_SIZE);
    r := Disk(d.bytes[..lo] + tail);
    SplicedWrite(d, sector, count, buff, tail);
    status := 0;
  }

  /** Keeping the bytes before the first sector and copying over the rest is the sector write. */
  lemma SplicedWrite(d: Disk, sector: nat, count: nat, buff: seq<Byte>, tail: seq<Byte>)
    requires d.Valid() && InRange(sector, count) && count * SECTOR_SIZE <= |buff|
    requires var lo, n := sector * SECTOR_SIZE, count * SECTOR_SIZE;
      |tail| == DISK_SIZE - lo && tail[..n] == buff[..n] && tail[n..] == d.bytes[lo..][n..]
    ensures Disk(d.bytes[..sector * SECTOR_SIZE] + tail) == WriteSectors(d, sector, count, buff)
  {
    var lo, n := sector * SECTOR_SIZE, count * SECTOR_SIZE;
    var r := Disk(d.bytes[..lo] + tail);
    assert (sector + count) * SECTOR_SIZE == lo + n;
    forall k | 0 <= k < DISK_SIZE
      ensures r.bytes[k] == WriteSectors(d, sector, count, buff).bytes[k]
    {
      if lo <= k < lo + n {
        assert tail[k - lo] == tail[..n][k - lo];
      } else if k >= lo + n {
        assert tail[k - lo] == tail[n..][k - lo - n];
      }
    }
  }

  /** Reading back the sectors just written returns the data written. */
  lemma WriteThenRead(d: Disk, sector: nat, count: nat, data: seq<Byte>)
    requires d.Valid() && InRange(sector, count) && count * SECTOR_SIZE <= |data|
    ensures ReadSectors(WriteSectors(d, sector, count, data), sector, count) == data[..count * SECTOR_SIZE]
  {
    var r := WriteSectors(d, sector, count, data);
    var got := ReadSectors(r, sector, count);
    assert forall k :: 0 <= k < |got| ==> got[k] == r.bytes[sector * SECTOR_SIZE + k];
  }

  /** A write leaves every sector outside its range as it was. */
  lemma WriteKeepsOtherSectors(d: Disk, sector: nat, count: nat, data: seq<Byte>, s2: nat, c2: nat)
    requires d.Valid() && InRange(sector, count) && count * SECTOR_SIZE <= |data|
    requires InRange(s2, c2) && (s2 + c2 <= sector || sector + count <= s2)
    ensures ReadSectors(WriteSectors(d, sector, count, data), s2, c2) == ReadSectors(d, s2, c2)
  {
    var r := WriteSectors(d, sector, count, data);
    var a, b := ReadSectors(r, s2, c2), ReadSectors(d, s2, c2);
    assert forall k :: 0 <= k < |a| ==> a[k] == b[k];
  }

  // ---------------------------------------------------------------------------
  // The FAT driver interface

  /** The driver's result codes, with the numeric values of the FAT library's `DRESULT`. */
  datatype DResult = ResOk | ResError | ResWrprt | ResNotrdy | ResParerr
  {
    function Code(): nat {
      match this
      case ResOk => 0
      case ResError => 1
      case ResWrprt => 2
      case ResNotrdy => 3
      case ResParerr => 4
    }
  }

  /** A status of 0 becomes `RES_OK`, anything else `RES_ERROR`. */
  function FromStatus(status: int): (r: DResult)
    ensures r == ResOk <==> status == 0
    ensures r == ResOk || r == ResError
  {
    if status == 0 then ResOk else ResError
  }

  /** `disk_read`: the low-level read with its status mapped. */
  method DiskRead(d: Disk, buff: seq<Byte>, sector: nat, count: nat) returns (res: DResult, out: seq<Byte>)
    requires d.Valid() && NoWrap(sector, count)
    requires InRange(sector, count) ==> count * SECTOR_SIZE <= |buff|
    ensures res == ResOk <==> InRange(sector, count)
    ensures res != ResOk ==> res == ResError && out == buff
    ensures res == ResOk ==> |out| == |buff| && out[..count * SECTOR_SIZE] == ReadSectors(d, sector, count)
                             && out[count * SECTOR_SIZE..] == buff[count * SECTOR_SIZE..]
  {
    var status;
    status, out := OsDiskRead(d, buff, sector, count);
    res := FromStatus(status);
  }

  /** `disk_write`: the low-level write with its status mapped. */
  method DiskWrite(d: Disk, buff: seq<Byte>, sector: nat, count: nat) returns (res: DResult, r: Disk)
    requires d.Valid() && NoWrap(sector, count)
    requires InRange(sector, count) ==> count * SECTOR_SIZE <= |buff|
    ensures res == ResOk <==> InRange(sector, count)
    ensures res != ResOk ==> res == ResError && r == d
    ensures res == ResOk ==> r == WriteSectors(d, sector, count, buff)
  {
    var status;
    status, r := OsDiskWrite(d, buff, sector, count);
    res := FromStatus(status);
  }

  /** `disk_initialize` and `disk_status`: the RAM disk is always ready. */
  function DiskStatus(pdrv: Byte): (status: Byte)
    ensures status == 0
  {
    0
  }

  const CTRL_SYNC: Byte := 0
  const GET_SECTOR_COUNT: Byte := 1
  const GET_SECTOR_SIZE: Byte := 2
  const GET_BLOCK_SIZE: Byte := 3

  /** `disk_ioctl`: the result code and the value stored through `buff`, if any. */
  function DiskIoctl(cmd: Byte): (r: (DResult, Option<nat>))
    ensures r.0 == ResParerr <==> cmd !in {CTRL_SYNC, GET_SECTOR_COUNT, GET_SECTOR_SIZE, GET_BLOCK_SIZE}
    ensures r.0 == ResOk || r.0 == ResParerr
    ensures r.1.Some? <==> cmd in {GET_SECTOR_COUNT, GET_SECTOR_SIZE, GET_BLOCK_SIZE}
    ensures cmd == GET_SECTOR_COUNT ==> r.1 == Some(2048)
    ensures cmd == GET_SECTOR_SIZE ==> r.1 == Some(512)
    ensures cmd == GET_BLOCK_SIZE ==> r.1 == Some(1)
  {
    if cmd == GET_SECTOR_COUNT then (ResOk, Some(SECTOR_COUNT))
    else if cmd == GET_SECTOR_SIZE then (ResOk, Some(SECTOR_SIZE))
    else if cmd == GET_BLOCK_SIZE then (ResOk, Some(1))
    else if cmd == CTRL_SYNC then (ResOk, None)
    else (ResParerr, None)
  }

  /**
   * The geometry reported to the FAT library matches the storage: count times size is
   * the disk size, and a one-sector read succeeds exactly below the reported count.
   */
  lemma IoctlGeometryMatchesDisk(sector: nat)
    requires NoWrap(sector, 1)
    ensures var count := DiskIoctl(GET_SECTOR_COUNT).1.value;
            var size := DiskIoctl(GET_SECTOR_SIZE).1.value;
            count * size == DISK_SIZE && (InRange(sector, 1) <==> sector < count)
  {
  }

  // ---------------------------------------------------------------------------
  // mount_and_format

  /** The FAT library calls the start-up sequence makes, in order. */
  datatype FsCall = Mount | Mkfs

  /**
   * `mount_and_format` with the library's results as inputs: mount; if that fails,
   * format and mount again. Returns the status and the calls actually made.
   */
  function MountAndFormat(mountOk: bool, mkfsOk: bool, remountOk: bool): (r: (int, seq<FsCall>))
    ensures r.0 == 0 || r.0 == -1
    ensures r.0 == 0 <==> mountOk || (mkfsOk && remountOk)
    ensures 1 <= |r.1| <= 3 && r.1[0] == Mount
    ensures mountOk <==> r.1 == [Mount]
    ensures |r.1| == 3 <==> !mountOk && mkfsOk
  {
    if mountOk then (0, [Mount])
    else if !mkfsOk then (-1, [Mount, Mkfs])
    else if !remountOk then (-1, [Mount, Mkfs, Mount])
    else (0, [Mount, Mkfs, Mount])
  }
}
