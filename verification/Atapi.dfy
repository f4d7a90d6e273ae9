/** The port handlers of atapi.c, updating its static variables in place. */
module Atapi {
  import opened Bytes
  import opened Bits
  import opened AtapiDrive

  class Controller {
    const disk: seq<u8>
    const currPkt: array<u8>
    const toSend: array<u8>
    var byteRead: u32
    var byteSent: u32
    var receiving: bool
    var sending: bool
    var selectedDrive: u8

    ghost predicate Valid()
      reads this, currPkt, toSend
    {
      currPkt != toSend && Inv(View())
    }

    ghost function View(): Drive
      reads this, currPkt, toSend
    {
      Drive(currPkt[..], byteRead, toSend[..], byteSent, receiving, sending, selectedDrive)
    }

    constructor (image: seq<u8>)
      ensures Valid() && fresh(currPkt) && fresh(toSend)
      ensures disk == image && View() == POWER_ON
    {
      disk := image;
      currPkt := new u8[PACKET_SZ](_ => 0);
      toSend := new u8[CD_BLOCK_SZ](_ => 0);
      byteRead, byteSent := 0, 0;
      receiving, sending := false, false;
      selectedDrive := 0;
      new;
      assert currPkt[..] == POWER_ON.packet && toSend[..] == POWER_ON.toSend;
    }

    /** `select_outb` */
    method SelectOutb(data: u8)
      requires Valid()
      modifies this
      ensures Valid() && View() == Step(disk, old(View()), Select(data))
    {
      selectedDrive := data;
    }

    /** `data_outw`: the two bytes of a word go in at the packet's next place. */
    method DataOutw(data: u16)
      requires Valid()
      modifies this, currPkt
      ensures Valid() && View() == Step(disk, old(View()), WriteWord(data))
      ensures old(byteRead) < 12 ==>
                && byteRead == old(byteRead) + 2
                && currPkt[old(byteRead)] == data % 0x100 && currPkt[old(byteRead) + 1] == data / 0x100
    {
      if byteRead > PACKET_SZ - 2 {
        return;
      }
      receiving := true;
      currPkt[byteRead] := Low(data);
      currPkt[byteRead + 1] := High(data);
      byteRead := byteRead + 2;
    }

    /** `data_inw` */
    method DataInw() returns (word: u16)
      requires Valid()
      modifies this
      ensures Valid() && View() == Step(disk, old(View()), ReadWord)
      ensures word == DataWord(old(View()))
      ensures old(byteSent) < 2048 ==>
                word % 0x100 == toSend[old(byteSent)] && word / 0x100 == toSend[old(byteSent) + 1]
      ensures old(byteSent) == 2048 ==> word == 0
    {
      if byteSent >= CD_BLOCK_SZ {
        return 0;
      }
      sending := true;
      word := Word(toSend[byteSent], toSend[byteSent + 1]);
      byteSent := byteSent + 2;
    }

    /** `lseek` and `read` into `to_send`. */
    method ReadBlock(offset: u32)
      requires Valid()
      modifies toSend
      ensures toSend[..] == ReadDisk(disk, offset, old(toSend[..]))
    {
      var n := if offset < |disk| then Min(CD_BLOCK_SZ, |disk| - offset) else 0;
      for i := 0 to n
        invariant forall j :: 0 <= j < i ==> toSend[j] == disk[offset + j]
        invariant forall j :: i <= j < CD_BLOCK_SZ ==> toSend[j] == old(toSend[j])
      {
        toSend[i] := disk[offset + i];
      }
    }

    /** `handle_scsi_packet`; an unknown operation code changes nothing. */
    method HandleScsiPacket()
      requires Valid()
      modifies this, toSend
      ensures View() == HandlePacket(disk, old(View()))
      ensures currPkt[0] != 0xA8 ==> View() == old(View())
    {
      if currPkt[0] != READ_12 {
        return;
      }
      var lba := Or(Or(Or(currPkt[5], Shl(currPkt[4], 8)), Shl(currPkt[3], 16)), Shl(currPkt[2], 24)) % U32_SPAN;
      ReadBlock((lba * CD_BLOCK_SZ) % U32_SPAN);
      byteSent := 0;
    }

    /** `signature_inb` */
    method SignatureInb(port: u16) returns (value: u8)
      requires Valid()
      modifies this, toSend
      ensures Valid() && View() == Step(disk, old(View()), ReadRegister(port))
      ensures value == RegisterByte(old(View()), port)
      ensures old(selectedDrive) == 0 && port == 0x1F2 ==>
                value == if old(sending) then 3 else if old(receiving) then 2 else 1
      ensures old(selectedDrive) == 0 && 0x1F3 <= port <= 0x1F5 ==> value == [0x01, 0x14, 0xEB][port - 0x1F3]
      ensures old(selectedDrive) != 0 || port < 0x1F2 || port > 0x1F5 ==> value == 0 && View() == old(View())
    {
      if selectedDrive != ATA_PORT_MASTER {
        return 0;
      }
      if port == SECTOR_COUNT {
        if sending {
          byteSent := 0;
          sending := false;
          return PACKET_COMMAND_COMPLETE;
        }
        if receiving {
          HandleScsiPacket();
          byteRead := 0;
          receiving := false;
          return PACKET_DATA_TRANSMIT;
        }
        return ATAPI_SIG_SC;
      }
      value :=
        if port == LBA_LO then ATAPI_SIG_LBA_LO
        else if port == LBA_MI then ATAPI_SIG_LBA_MI
        else if port == LBA_HI then ATAPI_SIG_LBA_HI
        else 0;
    }
  }
}
