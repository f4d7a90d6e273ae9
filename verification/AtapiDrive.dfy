/**
 The ATAPI drive of atapi.c as a value: a packet comes in word by word, a block goes out word by
 word, and reads of the sector count register move the protocol on.  The disk is a byte sequence.
 */
module AtapiDrive {
  import opened Bytes
  import opened Bits

  const CD_BLOCK_SZ: nat := 2048
  const PACKET_SZ: nat := 12
  /** Blocks that a 32-bit byte offset can tell apart. */
  const SEEK_SPAN: nat := 0x20_0000
  const READ_12: u8 := 0xA8

  const PACKET_AWAIT_COMMAND: u8 := 1
  const PACKET_DATA_TRANSMIT: u8 := 2
  const PACKET_COMMAND_COMPLETE: u8 := 3

  const ATA_PORT_MASTER: u8 := 0x00
  const SECTOR_COUNT: u16 := 0x1F2
  const LBA_LO: u16 := 0x1F3
  const LBA_MI: u16 := 0x1F4
  const LBA_HI: u16 := 0x1F5

  const ATAPI_SIG_SC: u8 := 0x01
  const ATAPI_SIG_LBA_LO: u8 := 0x01
  const ATAPI_SIG_LBA_MI: u8 := 0x14
  const ATAPI_SIG_LBA_HI: u8 := 0xEB

  /** The static variables. */
  datatype Drive = Drive(
    packet: seq<u8>, byteRead: nat, toSend: seq<u8>, byteSent: nat,
    receiving: bool, sending: bool, selected: u8)

  const POWER_ON: Drive :=
    Drive(seq(PACKET_SZ, _ => 0), 0, seq(CD_BLOCK_SZ, _ => 0), 0, false, false, 0)

  /** A guest access to one of the ports. */
  datatype Access =
    | Select(drive: u8)
    | WriteWord(word: u16)
    | ReadWord
    | ReadRegister(port: u16)
    | ReadStatus
    | WriteIgnored

  // ------------------------------------------------------------------ words and addresses

  function Word(lo: u8, hi: u8): u16 {
    lo + 0x100 * hi
  }

  function Low(w: u16): u8 {
    w % 0x100
  }

  function High(w: u16): u8 {
    w / 0x100
  }

  /** Words go over the wire little end first, and are taken apart the same way. */
  lemma LittleEndian(lo: u8, hi: u8, w: u16)
    ensures Word(lo, hi) % 0x100 == lo && Word(lo, hi) / 0x100 == hi
    ensures Low(w) + 0x100 * High(w) == w
    ensures Low(Word(lo, hi)) == lo && High(Word(lo, hi)) == hi
  {
  }

  /** Block address of a packet, put together by shifts and ors and cut to 32 bits. */
  function Lba(packet: seq<u8>): u32
    requires |packet| == PACKET_SZ
  {
    Or(Or(Or(packet[5], Shl(packet[4], 8)), Shl(packet[3], 16)), Shl(packet[2], 24)) % U32_SPAN
  }

  /** `lba * CD_BLOCK_SZ` in 32 bits. */
  function SeekOffset(lba: u32): u32 {
    (lba * CD_BLOCK_SZ) % U32_SPAN
  }

  /** The four address bytes of a READ(12) packet, most significant first. */
  function BigEndian(b: u32): (bytes: seq<u8>)
    ensures |bytes| == 4
  {
    [b / 0x100_0000, b / 0x1_0000 % 0x100, b / 0x100 % 0x100, b % 0x100]
  }

  /** A READ(12) command: the bytes of its block address, and what the drive does not look at. */
  datatype Command = Read12(
    lbaHi: u8, lbaMihi: u8, lbaMilo: u8, lbaLo: u8,
    flags: u8, lengthHigh: u16, lengthLow: u16, control: u16)

  /** The block address of a command, most significant byte first. */
  function Block(c: Command): u32 {
    c.lbaLo + 0x100 * c.lbaMilo + 0x1_0000 * c.lbaMihi + 0x100_0000 * c.lbaHi
  }

  /** The six words a guest sends for it. */
  function PacketWords(c: Command): (words: seq<u16>)
    ensures |words| == 6 && words[0] % 0x100 == 0xA8
  {
    [Word(READ_12, c.flags), Word(c.lbaHi, c.lbaMihi), Word(c.lbaMilo, c.lbaLo),
     c.lengthHigh, c.lengthLow, c.control]
  }

  /** There is a command for every 32-bit block address: its big-endian bytes. */
  lemma EveryBlockHasACommand(b: u32, flags: u8, lengthHigh: u16, lengthLow: u16, control: u16)
    ensures var s := BigEndian(b);
            Block(Read12(s[0], s[1], s[2], s[3], flags, lengthHigh, lengthLow, control)) == b
  {
    BigEndianAddsUp(b);
  }

  /** The shifted bytes do not overlap, so the ors add them up. */
  lemma {:induction false} OrOfBytes(b0: u8, b1: u8, b2: u8, b3: u8)
    ensures Or(Or(Or(b0, Shl(b1, 8)), Shl(b2, 16)), Shl(b3, 24))
         == b0 + 0x100 * b1 + 0x1_0000 * b2 + 0x100_0000 * b3
  {
    PowersOfBytes();
    var two := b0 + 0x100 * b1;
    var three := two + 0x1_0000 * b2;
    OrOfFields(b0, b1, 8);
    OrOfFields(two, b2, 16);
    OrOfFields(three, b3, 24);
    assert Shl(b1, 8) == 0x100 * b1 && Shl(b2, 16) == 0x1_0000 * b2 && Shl(b3, 24) == 0x100_0000 * b3;
  }

  lemma PowersOfBytes()
    ensures Pow2(8) == 0x100 && Pow2(16) == 0x1_0000 && Pow2(24) == 0x100_0000
  {
    Pow2Sum(8, 8);
    Pow2Sum(16, 8);
  }

  lemma BigEndianAddsUp(b: u32)
    ensures b == (b % 0x100) + 0x100 * (b / 0x100 % 0x100) + 0x1_0000 * (b / 0x1_0000 % 0x100)
                 + 0x100_0000 * (b / 0x100_0000)
  {
    var b1 := b / 0x100;
    var b2 := b1 / 0x100;
    assert b2 == b / 0x1_0000 && b2 / 0x100 == b / 0x100_0000;
  }

  /** The decoder inverts the big-endian layout for every 32-bit block address. */
  lemma {:induction false} LbaInvertsBigEndian(packet: seq<u8>, b: u32)
    requires |packet| == PACKET_SZ && packet[2..6] == BigEndian(b)
    ensures Lba(packet) == b
  {
    var p := packet[2..6];
    assert packet[2] == p[0] && packet[3] == p[1] && packet[4] == p[2] && packet[5] == p[3];
    LbaOfBytes(packet, p[3], p[2], p[1], p[0]);
    BigEndianAddsUp(b);
  }

  lemma LbaOfBytes(packet: seq<u8>, b0: u8, b1: u8, b2: u8, b3: u8)
    requires |packet| == PACKET_SZ
    requires packet[5] == b0 && packet[4] == b1 && packet[3] == b2 && packet[2] == b3
    ensures Lba(packet) == b0 + 0x100 * b1 + 0x1_0000 * b2 + 0x100_0000 * b3
  {
    OrOfBytes(b0, b1, b2, b3);
  }

  /** The block that a block address names once the byte offset is cut to 32 bits. */
  function Reached(lba: u32): nat {
    lba % SEEK_SPAN
  }

  /** The seek goes to the addressed block exactly below block 2^21; from there on it starts over. */
  lemma SeekWraps(lba: u32)
    ensures SeekOffset(lba) == 2048 * Reached(lba) && Reached(lba) == lba % 0x20_0000
    ensures SeekOffset(lba) == 2048 * lba <==> lba < 0x20_0000
    ensures lba < SEEK_SPAN ==> Reached(lba) == lba
  {
    var q, r := lba / SEEK_SPAN, lba % SEEK_SPAN;
    assert lba == SEEK_SPAN * q + r && r < SEEK_SPAN;
    if lba < SEEK_SPAN {
      RemainderIs(lba, SEEK_SPAN, 0, lba);
    }
    RemainderIs(lba * CD_BLOCK_SZ, U32_SPAN, q, r * CD_BLOCK_SZ);
  }

  // ------------------------------------------------------------------ one access

  /** `lseek` and `read`: what the disk has at the offset, over what the buffer held before. */
  function ReadDisk(disk: seq<u8>, offset: nat, buffer: seq<u8>): (r: seq<u8>)
    requires |buffer| == CD_BLOCK_SZ
    ensures |r| == CD_BLOCK_SZ
    ensures offset + CD_BLOCK_SZ <= |disk| ==> r == disk[offset..offset + CD_BLOCK_SZ]
  {
    var n := if offset < |disk| then Min(CD_BLOCK_SZ, |disk| - offset) else 0;
    if n == 0 then buffer else disk[offset..offset + n] + buffer[n..]
  }

  /** A read that reaches past the end of the disk is short and leaves the rest of the buffer alone. */
  lemma ReadDiskAt(disk: seq<u8>, offset: nat, buffer: seq<u8>, k: nat)
    requires |buffer| == CD_BLOCK_SZ && k < CD_BLOCK_SZ
    ensures ReadDisk(disk, offset, buffer)[k] == if offset + k < |disk| then disk[offset + k] else buffer[k]
  {
  }

  /** Both buffers have their sizes and both counters stay inside them, on whole words. */
  predicate Shaped(d: Drive) {
    && |d.packet| == PACKET_SZ && |d.toSend| == CD_BLOCK_SZ
    && d.byteRead % 2 == 0 && d.byteRead <= PACKET_SZ
    && d.byteSent % 2 == 0 && d.byteSent <= CD_BLOCK_SZ
  }

  function HandlePacket(disk: seq<u8>, d: Drive): Drive
    requires Shaped(d)
  {
    if d.packet[0] != READ_12 then d
    else d.(toSend := ReadDisk(disk, SeekOffset(Lba(d.packet)), d.toSend), byteSent := 0)
  }

  function Step(disk: seq<u8>, d: Drive, a: Access): (r: Drive)
    requires Shaped(d)
    ensures Shaped(r)
  {
    match a
    case Select(drive) => d.(selected := drive)
    case WriteWord(w) =>
      if d.byteRead > PACKET_SZ - 2 then d
      else d.(receiving := true, byteRead := d.byteRead + 2,
              packet := d.packet[d.byteRead := Low(w)][d.byteRead + 1 := High(w)])
    case ReadWord =>
      if d.byteSent >= CD_BLOCK_SZ then d else d.(sending := true, byteSent := d.byteSent + 2)
    case ReadRegister(port) =>
      if d.selected != ATA_PORT_MASTER || port != SECTOR_COUNT then d
      else if d.sending then d.(byteSent := 0, sending := false)
      else if d.receiving then HandlePacket(disk, d).(byteRead := 0, receiving := false)
      else d
    case ReadStatus => d
    case WriteIgnored => d
  }

  /** The byte a register read returns. */
  function RegisterByte(d: Drive, port: u16): u8 {
    if d.selected != ATA_PORT_MASTER then 0
    else if port == SECTOR_COUNT then
      if d.sending then PACKET_COMMAND_COMPLETE
      else if d.receiving then PACKET_DATA_TRANSMIT
      else PACKET_AWAIT_COMMAND
    else if port == LBA_LO then ATAPI_SIG_LBA_LO
    else if port == LBA_MI then ATAPI_SIG_LBA_MI
    else if port == LBA_HI then ATAPI_SIG_LBA_HI
    else 0
  }

  /** The word a data read returns. */
  function DataWord(d: Drive): u16
    requires Shaped(d)
  {
    if d.byteSent >= CD_BLOCK_SZ then 0 else Word(d.toSend[d.byteSent], d.toSend[d.byteSent + 1])
  }

  // ------------------------------------------------------------------ whole runs

  /** What a run leaves: the drive, the data words read, and the sector counts read. */
  datatype Outcome = Outcome(drive: Drive, data: seq<u16>, counts: seq<u8>)

  function DataOf(d: Drive, a: Access): seq<u16>
    requires Shaped(d)
  {
    if a == ReadWord then [DataWord(d)] else []
  }

  function CountsOf(d: Drive, a: Access): seq<u8> {
    if a == ReadRegister(SECTOR_COUNT) then [RegisterByte(d, SECTOR_COUNT)] else []
  }

  function Run(disk: seq<u8>, d: Drive, accesses: seq<Access>): (r: Outcome)
    requires Shaped(d)
    ensures Shaped(r.drive)
    decreases |accesses|
  {
    if accesses == [] then Outcome(d, [], [])
    else
      var a := accesses[0];
      var rest := Run(disk, Step(disk, d, a), accesses[1..]);
      Outcome(rest.drive, DataOf(d, a) + rest.data, CountsOf(d, a) + rest.counts)
  }

  lemma {:induction false} RunConcat(disk: seq<u8>, d: Drive, first: seq<Access>, second: seq<Access>)
    requires Shaped(d)
    ensures var r := Run(disk, d, first);
            var s := Run(disk, r.drive, second);
            Run(disk, d, first + second) == Outcome(s.drive, r.data + s.data, r.counts + s.counts)
    decreases |first|
  {
    var r := Run(disk, d, first);
    var s := Run(disk, r.drive, second);
    if first == [] {
      assert first + second == second && [] + s.data == s.data && [] + s.counts == s.counts;
    } else {
      var a, t := first[0], Step(disk, d, first[0]);
      var rest := Run(disk, t, first[1..]);
      assert (first + second)[0] == a && (first + second)[1..] == first[1..] + second;
      RunConcat(disk, t, first[1..], second);
      Associative(DataOf(d, a), rest.data, s.data);
      Associative(CountsOf(d, a), rest.counts, s.counts);
    }
  }

  lemma Associative<T>(a: seq<T>, b: seq<T>, c: seq<T>)
    ensures a + (b + c) == (a + b) + c
  {
  }

  // ------------------------------------------------------------------ the invariant

  ghost predicate Inv(d: Drive) {
    && Shaped(d)
    && (d.receiving <==> d.byteRead > 0)
    && (d.sending <==> d.byteSent > 0)
  }

  lemma StepKeepsInv(disk: seq<u8>, d: Drive, a: Access)
    requires Inv(d)
    ensures Inv(Step(disk, d, a))
  {
  }

  /** In every state any guest can bring the drive into, flags and counters agree. */
  lemma {:induction false} RunKeepsInv(disk: seq<u8>, d: Drive, accesses: seq<Access>)
    requires Inv(d)
    ensures Inv(Run(disk, d, accesses).drive)
    decreases |accesses|
  {
    if accesses == [] {
    } else {
      StepKeepsInv(disk, d, accesses[0]);
      RunKeepsInv(disk, Step(disk, d, accesses[0]), accesses[1..]);
    }
  }

  predicate Idle(d: Drive) {
    !d.receiving && !d.sending
  }

  /** A drive that was just powered on waits for a packet, with the master selected. */
  lemma PowerOnWaits()
    ensures Inv(POWER_ON) && Idle(POWER_ON) && POWER_ON.selected == 0
    ensures POWER_ON.packet == seq(12, _ => 0) && POWER_ON.toSend == seq(2048, _ => 0)
  {
  }

  /** What the registers of the selected drive read: where the protocol stands, and the ATAPI signature. */
  lemma RegistersRead(d: Drive, port: u16)
    requires d.selected == 0
    ensures RegisterByte(d, 0x1F2) == if d.sending then 3 else if d.receiving then 2 else 1
    ensures RegisterByte(d, 0x1F3) == 0x01 && RegisterByte(d, 0x1F4) == 0x14 && RegisterByte(d, 0x1F5) == 0xEB
    ensures port < 0x1F2 || port > 0x1F5 ==> RegisterByte(d, port) == 0
  {
  }

  /**
   Once another drive is selected, whatever the guest does but select again, every register reads 0,
   no packet is taken and no transfer completed.
   */
  lemma {:induction false} OtherDriveIsSilent(disk: seq<u8>, d: Drive, accesses: seq<Access>, port: u16)
    requires Shaped(d) && d.selected != 0 && forall a :: a in accesses ==> !a.Select?
    ensures var r := Run(disk, d, accesses);
            && RegisterByte(r.drive, port) == 0 && r.drive.selected == d.selected
            && (forall c :: c in r.counts ==> c == 0)
            && r.drive.toSend == d.toSend && r.drive.byteRead >= d.byteRead && r.drive.byteSent >= d.byteSent
    decreases |accesses|
  {
    if accesses == [] {
    } else {
      assert accesses[0] in accesses && forall a :: a in accesses[1..] ==> a in accesses;
      OtherDriveIsSilent(disk, Step(disk, d, accesses[0]), accesses[1..], port);
    }
  }

  /** Selecting keeps everything else as it is, and the last selection counts. */
  lemma SelectingBackChangesNothing(disk: seq<u8>, d: Drive, other: u8)
    requires Shaped(d)
    ensures Step(disk, d, Select(other)).selected == other
    ensures Step(disk, Step(disk, d, Select(other)), Select(d.selected)) == d
  {
  }
}
