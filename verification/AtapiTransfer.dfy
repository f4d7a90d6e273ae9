/** What whole runs of guest accesses to the ATAPI drive add up to. */
module AtapiTransfer {
  import opened Bytes
  import opened AtapiDrive

  const COUNT: Access := ReadRegister(SECTOR_COUNT)
  const BLOCK_WORDS: nat := CD_BLOCK_SZ / 2

  // ------------------------------------------------------------------ words and bytes

  /** A block as the little-endian words the guest reads. */
  function WordsOf(bytes: seq<u8>): (words: seq<u16>)
    ensures |words| == |bytes| / 2
  {
    seq(|bytes| / 2, i requires 0 <= i < |bytes| / 2 => Word(bytes[2 * i], bytes[2 * i + 1]))
  }

  function BytesOf(words: seq<u16>): (bytes: seq<u8>)
    ensures |bytes| == 2 * |words|
  {
    if words == [] then [] else [Low(words[0]), High(words[0])] + BytesOf(words[1..])
  }

  lemma WordsOfConcat(a: seq<u8>, b: seq<u8>)
    requires |a| % 2 == 0
    ensures WordsOf(a + b) == WordsOf(a) + WordsOf(b)
  {
    var w := WordsOf(a + b);
    forall i | 0 <= i < |w| ensures w[i] == (WordsOf(a) + WordsOf(b))[i] {
      if 2 * i < |a| {
        assert (a + b)[2 * i] == a[2 * i] && (a + b)[2 * i + 1] == a[2 * i + 1];
      } else {
        var j := i - |a| / 2;
        assert (a + b)[2 * i] == b[2 * j] && (a + b)[2 * i + 1] == b[2 * j + 1];
      }
    }
  }

  // ------------------------------------------------------------------ the data side

  /** Word `i` of a transfer: the block first, zero ever after. */
  function BlockWord(block: seq<u8>, i: nat): u16
    requires |block| == CD_BLOCK_SZ
  {
    if i < BLOCK_WORDS then Word(block[2 * i], block[2 * i + 1]) else 0
  }

  /** `n` words of a transfer from word `i` on. */
  function Stream(block: seq<u8>, i: nat, n: nat): (words: seq<u16>)
    requires |block| == CD_BLOCK_SZ
    ensures |words| == n
    decreases n
  {
    if n == 0 then [] else [BlockWord(block, i)] + Stream(block, i + 1, n - 1)
  }

  lemma {:induction false} StreamAt(block: seq<u8>, i: nat, n: nat, k: nat)
    requires |block| == CD_BLOCK_SZ && k < n
    ensures Stream(block, i, n)[k] == BlockWord(block, i + k)
    decreases n
  {
    if k == 0 {
    } else {
      StreamAt(block, i + 1, n - 1, k - 1);
    }
  }

  lemma WholeStream(block: seq<u8>)
    requires |block| == CD_BLOCK_SZ
    ensures Stream(block, 0, BLOCK_WORDS) == WordsOf(block)
  {
    forall k | 0 <= k < BLOCK_WORDS ensures Stream(block, 0, BLOCK_WORDS)[k] == WordsOf(block)[k] {
      StreamAt(block, 0, BLOCK_WORDS, k);
    }
  }

  lemma RunOne(disk: seq<u8>, d: Drive, a: Access, rest: seq<Access>)
    requires Shaped(d)
    ensures var r := Run(disk, Step(disk, d, a), rest);
            Run(disk, d, [a] + rest) == Outcome(r.drive, DataOf(d, a) + r.data, CountsOf(d, a) + r.counts)
  {
    assert ([a] + rest)[0] == a && ([a] + rest)[1..] == rest;
  }

  lemma LastAccess(disk: seq<u8>, d: Drive, a: Access)
    requires Shaped(d)
    ensures Run(disk, d, [a]) == Outcome(Step(disk, d, a), DataOf(d, a), CountsOf(d, a))
  {
    assert [a] == [a] + [];
    RunOne(disk, d, a, []);
  }

  /** Past its end a transfer reads the same from every point on. */
  lemma {:induction false} PastTheEnd(block: seq<u8>, i: nat, n: nat)
    requires |block| == CD_BLOCK_SZ
    ensures i >= BLOCK_WORDS ==> Stream(block, i, n) == Stream(block, i + 1, n)
    decreases n
  {
    if n == 0 {
    } else {
      PastTheEnd(block, i + 1, n - 1);
    }
  }

  /** Where the counter stands after `n` more words. */
  function SentAfter(sent: nat, n: nat): nat {
    Min(CD_BLOCK_SZ, sent + 2 * n)
  }

  /** One word, then the stream from where the counter stands after it. */
  lemma WordThenStream(block: seq<u8>, sent: nat, n: nat)
    requires |block| == CD_BLOCK_SZ && sent % 2 == 0 && sent <= CD_BLOCK_SZ
    ensures [BlockWord(block, sent / 2)] + Stream(block, SentAfter(sent, 1) / 2, n) == Stream(block, sent / 2, n + 1)
  {
    PastTheEnd(block, sent / 2, n);
    assert SentAfter(sent, 1) / 2 == if sent == CD_BLOCK_SZ then sent / 2 else sent / 2 + 1;
  }

  lemma DataIs(d: Drive, a: Access)
    requires Shaped(d)
    ensures DataOf(d, a) == if a == ReadWord then [BlockWord(d.toSend, d.byteSent / 2)] else []
  {
  }

  /** What one access reads comes before what the rest of the transfer reads. */
  lemma NextOfStream(d: Drive, a: Access, sent: nat, more: seq<u16>)
    requires Shaped(d) && sent == SentAfter(d.byteSent, |DataOf(d, a)|)
    requires more == Stream(d.toSend, sent / 2, |more|)
    ensures DataOf(d, a) + more == Stream(d.toSend, d.byteSent / 2, |DataOf(d, a) + more|)
  {
    DataIs(d, a);
    if a == ReadWord {
      WordThenStream(d.toSend, d.byteSent, |more|);
    } else {
      assert [] + more == more;
    }
  }

  /** A step that hands over no packet and completes no transfer leaves the block alone and counts the word it reads. */
  lemma SendingStep(disk: seq<u8>, d: Drive, a: Access)
    requires Inv(d) && PACKET_COMMAND_COMPLETE !in CountsOf(d, a)
    requires d.sending || PACKET_DATA_TRANSMIT !in CountsOf(d, a)
    ensures var t := Step(disk, d, a);
            && Inv(t) && (d.sending ==> t.sending) && t.toSend == d.toSend
            && t.byteSent == SentAfter(d.byteSent, |DataOf(d, a)|)
  {
  }

  lemma RunUnfolds(disk: seq<u8>, d: Drive, accesses: seq<Access>)
    requires Shaped(d) && accesses != []
    ensures var r := Run(disk, Step(disk, d, accesses[0]), accesses[1..]);
            Run(disk, d, accesses) ==
              Outcome(r.drive, DataOf(d, accesses[0]) + r.data, CountsOf(d, accesses[0]) + r.counts)
  {
  }

  /**
   Along a run no transfer is completed and, before the first data read, no packet is handed over:
   the guest can tell from the sector counts it reads.
   */
  ghost predicate OneTransfer(disk: seq<u8>, d: Drive, accesses: seq<Access>)
    requires Shaped(d)
  {
    && PACKET_COMMAND_COMPLETE !in Run(disk, d, accesses).counts
    && (d.sending || PACKET_DATA_TRANSMIT !in Run(disk, d, accesses).counts)
  }

  lemma OneTransferRest(disk: seq<u8>, d: Drive, accesses: seq<Access>)
    requires Inv(d) && accesses != [] && OneTransfer(disk, d, accesses)
    ensures PACKET_COMMAND_COMPLETE !in CountsOf(d, accesses[0])
    ensures d.sending || PACKET_DATA_TRANSMIT !in CountsOf(d, accesses[0])
    ensures OneTransfer(disk, Step(disk, d, accesses[0]), accesses[1..])
  {
    RunUnfolds(disk, d, accesses);
    SendingStep(disk, d, accesses[0]);
  }

  /** Whatever else the guest does, the block of a transfer does not change and its position counts the words read. */
  lemma {:induction false} SendingContinues(disk: seq<u8>, d: Drive, accesses: seq<Access>)
    requires Inv(d) && OneTransfer(disk, d, accesses)
    ensures var r := Run(disk, d, accesses);
            && Inv(r.drive) && (d.sending ==> r.drive.sending) && r.drive.toSend == d.toSend
            && r.drive.byteSent == SentAfter(d.byteSent, |r.data|)
    decreases |accesses|
  {
    if accesses == [] {
    } else {
      RunUnfolds(disk, d, accesses);
      OneTransferRest(disk, d, accesses);
      SendingStep(disk, d, accesses[0]);
      SendingContinues(disk, Step(disk, d, accesses[0]), accesses[1..]);
    }
  }

  /** And the words read are the next words of that block. */
  lemma {:induction false} SendingReadsTheBlock(disk: seq<u8>, d: Drive, accesses: seq<Access>)
    requires Inv(d) && OneTransfer(disk, d, accesses)
    ensures var data := Run(disk, d, accesses).data;
            data == Stream(d.toSend, d.byteSent / 2, |data|)
    decreases |accesses|
  {
    if accesses == [] {
    } else {
      var t := Step(disk, d, accesses[0]);
      OneTransferRest(disk, d, accesses);
      SendingStep(disk, d, accesses[0]);
      SendingReadsTheBlock(disk, t, accesses[1..]);
      NextOfStream(d, accesses[0], t.byteSent, Run(disk, t, accesses[1..]).data);
      RunUnfolds(disk, d, accesses);
    }
  }

  /** The words of one transfer: a block's words in order, then zeros, however the reads are spread. */
  lemma TransferIsOneBlock(disk: seq<u8>, d: Drive, accesses: seq<Access>)
    requires Inv(d) && d.byteSent == 0
    requires PACKET_COMMAND_COMPLETE !in Run(disk, d, [ReadWord] + accesses).counts
    ensures var r := Run(disk, d, [ReadWord] + accesses);
            && |r.data| > 0
            && (forall k :: 0 <= k < |r.data| ==> r.data[k] == BlockWord(d.toSend, k))
  {
    var t := Step(disk, d, ReadWord);
    var rest := Run(disk, t, accesses);
    RunOne(disk, d, ReadWord, accesses);
    StepKeepsInv(disk, d, ReadWord);
    assert CountsOf(d, ReadWord) + rest.counts == rest.counts;
    SendingReadsTheBlock(disk, t, accesses);
    var r := Run(disk, d, [ReadWord] + accesses);
    assert r.data == Stream(d.toSend, 0, 1 + |rest.data|);
    forall k | 0 <= k < |r.data| ensures r.data[k] == BlockWord(d.toSend, k) {
      StreamAt(d.toSend, 0, |r.data|, k);
    }
  }

  // ------------------------------------------------------------------ the packet side

  /** The words the guest writes to the data port. */
  function WordsWritten(accesses: seq<Access>): (words: seq<u16>)
    ensures |words| <= |accesses|
  {
    if accesses == [] then []
    else if accesses[0].WriteWord? then [accesses[0].word] + WordsWritten(accesses[1..])
    else WordsWritten(accesses[1..])
  }

  /** A packet after some words were written from byte `k` on; what does not fit is dropped. */
  function Fill(packet: seq<u8>, k: nat, words: seq<u16>): (r: seq<u8>)
    requires |packet| == PACKET_SZ
    ensures |r| == PACKET_SZ
    decreases |words|
  {
    if words == [] || k > PACKET_SZ - 2 then packet
    else Fill(packet[k := Low(words[0])][k + 1 := High(words[0])], k + 2, words[1..])
  }

  lemma {:induction false} FillAt(packet: seq<u8>, k: nat, words: seq<u16>, j: nat)
    requires |packet| == PACKET_SZ && k <= PACKET_SZ && k % 2 == 0 && j < PACKET_SZ
    ensures Fill(packet, k, words)[j]
         == if k <= j < k + 2 * |words| then BytesOf(words)[j - k] else packet[j]
    decreases |words|
  {
    if words == [] || k == PACKET_SZ {
    } else {
      FillAt(packet[k := Low(words[0])][k + 1 := High(words[0])], k + 2, words[1..], j);
    }
  }

  lemma ReceivingStep(disk: seq<u8>, d: Drive, a: Access)
    requires Inv(d) && PACKET_DATA_TRANSMIT !in CountsOf(d, a)
    ensures var t := Step(disk, d, a);
            && Inv(t)
            && (if a.WriteWord? && d.byteRead < PACKET_SZ
                then t.byteRead == d.byteRead + 2
                     && t.packet == d.packet[d.byteRead := Low(a.word)][d.byteRead + 1 := High(a.word)]
                else t.byteRead == d.byteRead && t.packet == d.packet)
  {
  }

  /** Whatever else the guest does, the packet fills in write order until it is handed over. */
  lemma {:induction false} ReceivingContinues(disk: seq<u8>, d: Drive, accesses: seq<Access>)
    requires Inv(d)
    requires PACKET_DATA_TRANSMIT !in Run(disk, d, accesses).counts
    ensures var r := Run(disk, d, accesses).drive;
            && r.packet == Fill(d.packet, d.byteRead, WordsWritten(accesses))
            && r.byteRead == Min(PACKET_SZ, d.byteRead + 2 * |WordsWritten(accesses)|)
    decreases |accesses|
  {
    if accesses == [] {
    } else {
      RunUnfolds(disk, d, accesses);
      ReceivingStep(disk, d, accesses[0]);
      ReceivingContinues(disk, Step(disk, d, accesses[0]), accesses[1..]);
    }
  }

  /** Only the first six words after a hand-over decide the packet. */
  lemma FirstSixWords(disk: seq<u8>, d: Drive, accesses: seq<Access>)
    requires Inv(d) && d.byteRead == 0
    requires PACKET_DATA_TRANSMIT !in Run(disk, d, accesses).counts
    ensures var r := Run(disk, d, accesses).drive;
            var bytes := BytesOf(WordsWritten(accesses));
            && r.byteRead == Min(PACKET_SZ, |bytes|)
            && |r.packet| == PACKET_SZ
            && (forall j :: 0 <= j < PACKET_SZ ==>
                 r.packet[j] == if j < r.byteRead then bytes[j] else d.packet[j])
  {
    ReceivingContinues(disk, d, accesses);
    var words := WordsWritten(accesses);
    var r := Run(disk, d, accesses).drive;
    forall j | 0 <= j < PACKET_SZ
      ensures r.packet[j] == if j < r.byteRead then BytesOf(words)[j] else d.packet[j]
    {
      FillAt(d.packet, 0, words, j);
    }
  }

  // ------------------------------------------------------------------ one transaction

  function Reads(n: nat): (accesses: seq<Access>) {
    seq(n, _ => ReadWord)
  }

  function Writes(words: seq<u16>): (accesses: seq<Access>) {
    if words == [] then [] else [WriteWord(words[0])] + Writes(words[1..])
  }

  /** The accesses of one READ(12): six words out, a sector count, a block in, a sector count. */
  function Transaction(words: seq<u16>): seq<Access> {
    Writes(words) + ([COUNT] + (Reads(BLOCK_WORDS) + [COUNT]))
  }

  /** Where `n` reads take a transfer that has that many words left. */
  function Advanced(d: Drive, n: nat): Drive {
    if n == 0 then d else d.(sending := true, byteSent := d.byteSent + 2 * n)
  }

  lemma AdvancedOnce(d: Drive, n: nat)
    requires n > 0
    ensures var t := Advanced(d, 1);
            Advanced(t, n - 1) == Advanced(d, n) && t.toSend == d.toSend
            && t.byteSent == d.byteSent + 2 && t.byteSent / 2 == d.byteSent / 2 + 1
  {
  }

  lemma ReadStep(disk: seq<u8>, d: Drive)
    requires Shaped(d) && d.byteSent < CD_BLOCK_SZ
    ensures Step(disk, d, ReadWord) == Advanced(d, 1)
    ensures DataOf(d, ReadWord) == [BlockWord(d.toSend, d.byteSent / 2)] && CountsOf(d, ReadWord) == []
  {
  }

  lemma ReadThenReads(disk: seq<u8>, d: Drive, n: nat)
    requires Shaped(d) && d.byteSent < CD_BLOCK_SZ && n > 0
    ensures var r := Run(disk, Advanced(d, 1), Reads(n - 1));
            Run(disk, d, Reads(n)) == Outcome(r.drive, [BlockWord(d.toSend, d.byteSent / 2)] + r.data, r.counts)
  {
    ReadStep(disk, d);
    assert Reads(n) == [ReadWord] + Reads(n - 1);
    RunOne(disk, d, ReadWord, Reads(n - 1));
    var r := Run(disk, Advanced(d, 1), Reads(n - 1));
    assert [] + r.counts == r.counts;
  }

  lemma {:induction false} ReadsStream(disk: seq<u8>, d: Drive, n: nat)
    requires Shaped(d) && d.byteSent + 2 * n <= CD_BLOCK_SZ
    ensures Run(disk, d, Reads(n)) == Outcome(Advanced(d, n), Stream(d.toSend, d.byteSent / 2, n), [])
    decreases n
  {
    if n == 0 {
    } else {
      AdvancedOnce(d, n);
      ReadsStream(disk, Advanced(d, 1), n - 1);
      ReadThenReads(disk, d, n);
    }
  }

  lemma {:induction false} WritesFill(disk: seq<u8>, d: Drive, words: seq<u16>)
    requires Shaped(d) && d.byteRead + 2 * |words| <= PACKET_SZ
    ensures Run(disk, d, Writes(words)) == Outcome(
              if words == [] then d
              else d.(receiving := true, byteRead := d.byteRead + 2 * |words|,
                      packet := Fill(d.packet, d.byteRead, words)), [], [])
    decreases |words|
  {
    if words == [] {
    } else {
      WritesFill(disk, Step(disk, d, WriteWord(words[0])), words[1..]);
      RunOne(disk, d, WriteWord(words[0]), Writes(words[1..]));
    }
  }

  lemma WholePacket(packet: seq<u8>, words: seq<u16>)
    requires |packet| == PACKET_SZ && |words| == 6
    ensures Fill(packet, 0, words) == BytesOf(words)
  {
    forall j | 0 <= j < PACKET_SZ ensures Fill(packet, 0, words)[j] == BytesOf(words)[j] {
      FillAt(packet, 0, words, j);
    }
  }

  lemma PacketOf(c: Command)
    ensures var packet := BytesOf(PacketWords(c));
            |packet| == PACKET_SZ && packet[0] == READ_12 && Lba(packet) == Block(c)
  {
    var words := PacketWords(c);
    var w1, w2 := words[1..], words[2..];
    assert words[1..][1..] == w2 && words[2..][1..] == words[3..];
    assert BytesOf(words) == [Low(words[0]), High(words[0])] + BytesOf(w1);
    assert BytesOf(w1) == [Low(words[1]), High(words[1])] + BytesOf(w2);
    assert BytesOf(w2) == [Low(words[2]), High(words[2])] + BytesOf(words[3..]);
    LbaOfBytes(BytesOf(words), c.lbaLo, c.lbaMilo, c.lbaMihi, c.lbaHi);
  }

  ghost predicate Ready(d: Drive) {
    Inv(d) && Idle(d) && d.selected == ATA_PORT_MASTER
  }

  /** The drive once it took the packet of a command. */
  function Loaded(disk: seq<u8>, d: Drive, c: Command): Drive
    requires |d.toSend| == CD_BLOCK_SZ
  {
    d.(packet := BytesOf(PacketWords(c)), toSend := ReadDisk(disk, SeekOffset(Block(c)), d.toSend))
  }

  lemma PacketIsTaken(disk: seq<u8>, d: Drive, c: Command)
    requires Ready(d)
    ensures Run(disk, d, Writes(PacketWords(c)) + [COUNT])
         == Outcome(Loaded(disk, d, c), [], [PACKET_DATA_TRANSMIT])
  {
    var words := PacketWords(c);
    PacketOf(c);
    WritesFill(disk, d, words);
    WholePacket(d.packet, words);
    LastAccess(disk, Run(disk, d, Writes(words)).drive, COUNT);
    RunConcat(disk, d, Writes(words), [COUNT]);
  }

  lemma Completed(disk: seq<u8>, d: Drive)
    requires Inv(d) && d.sending && d.selected == ATA_PORT_MASTER
    ensures Step(disk, d, COUNT) == d.(sending := false, byteSent := 0) && Inv(Step(disk, d, COUNT))
    ensures DataOf(d, COUNT) == [] && CountsOf(d, COUNT) == [PACKET_COMMAND_COMPLETE]
  {
  }

  /** The sector count read after a whole block brings the drive back to where it was before. */
  lemma AllSent(disk: seq<u8>, d: Drive)
    requires Ready(d)
    ensures Run(disk, Advanced(d, BLOCK_WORDS), [COUNT]) == Outcome(d, [], [PACKET_COMMAND_COMPLETE])
  {
    var sent := Advanced(d, BLOCK_WORDS);
    Completed(disk, sent);
    LastAccess(disk, sent, COUNT);
  }

  lemma BlockIsSent(disk: seq<u8>, d: Drive)
    requires Ready(d)
    ensures Run(disk, d, Reads(BLOCK_WORDS) + [COUNT])
         == Outcome(d, WordsOf(d.toSend), [PACKET_COMMAND_COMPLETE])
  {
    ReadsStream(disk, d, BLOCK_WORDS);
    WholeStream(d.toSend);
    AllSent(disk, d);
    RunConcat(disk, d, Reads(BLOCK_WORDS), [COUNT]);
    assert WordsOf(d.toSend) + [] == WordsOf(d.toSend);
  }

  lemma ThenTheBlock(disk: seq<u8>, d: Drive, words: seq<u16>, t: Drive)
    requires Ready(d) && Ready(t)
    requires Run(disk, d, Writes(words) + [COUNT]) == Outcome(t, [], [PACKET_DATA_TRANSMIT])
    ensures Run(disk, d, Transaction(words))
         == Outcome(t, WordsOf(t.toSend), [PACKET_DATA_TRANSMIT, PACKET_COMMAND_COMPLETE])
  {
    BlockIsSent(disk, t);
    RunConcat(disk, d, Writes(words) + [COUNT], Reads(BLOCK_WORDS) + [COUNT]);
    Associative(Writes(words), [COUNT], Reads(BLOCK_WORDS) + [COUNT]);
    assert [] + WordsOf(t.toSend) == WordsOf(t.toSend);
  }

  /**
   A READ(12) transaction from any idle state: status 2, then the block as the disk has it over
   what the buffer held, then status 3, and the drive is idle again.
   */
  lemma {:induction false} TransactionReadsOneBlock(disk: seq<u8>, d: Drive, c: Command)
    requires Ready(d)
    ensures var t := Loaded(disk, d, c);
            && Ready(t)
            && Run(disk, d, Transaction(PacketWords(c)))
            == Outcome(t, WordsOf(t.toSend), [PACKET_DATA_TRANSMIT, PACKET_COMMAND_COMPLETE])
  {
    PacketOf(c);
    PacketIsTaken(disk, d, c);
    ThenTheBlock(disk, d, PacketWords(c), Loaded(disk, d, c));
  }

  lemma UnknownPacketIsTaken(disk: seq<u8>, d: Drive, words: seq<u16>)
    requires Ready(d) && |words| == 6 && Low(words[0]) != READ_12
    ensures Run(disk, d, Writes(words) + [COUNT])
         == Outcome(d.(packet := BytesOf(words)), [], [PACKET_DATA_TRANSMIT])
  {
    WritesFill(disk, d, words);
    WholePacket(d.packet, words);
    LastAccess(disk, Run(disk, d, Writes(words)).drive, COUNT);
    RunConcat(disk, d, Writes(words), [COUNT]);
  }

  /** A packet with another operation code is acknowledged all the same, and the last block is sent again. */
  lemma UnknownPacketSendsTheLastBlock(disk: seq<u8>, d: Drive, words: seq<u16>)
    requires Ready(d) && |words| == 6 && Low(words[0]) != READ_12
    ensures Run(disk, d, Transaction(words))
         == Outcome(d.(packet := BytesOf(words)), WordsOf(d.toSend),
                    [PACKET_DATA_TRANSMIT, PACKET_COMMAND_COMPLETE])
  {
    UnknownPacketIsTaken(disk, d, words);
    ThenTheBlock(disk, d, words, d.(packet := BytesOf(words)));
  }

  /** From any state, with a packet or a transfer cut short or not, three accesses make the drive ready. */
  lemma GuestCanAlwaysStartOver(disk: seq<u8>, d: Drive)
    requires Inv(d)
    ensures Ready(Run(disk, d, [Select(ATA_PORT_MASTER), COUNT, COUNT]).drive)
  {
    var selected := Step(disk, d, Select(ATA_PORT_MASTER));
    var once := Step(disk, selected, COUNT);
    LastAccess(disk, once, COUNT);
    RunOne(disk, selected, COUNT, [COUNT]);
    RunOne(disk, d, Select(ATA_PORT_MASTER), [COUNT, COUNT]);
    assert [COUNT] + [COUNT] == [COUNT, COUNT];
    assert [Select(ATA_PORT_MASTER)] + [COUNT, COUNT] == [Select(ATA_PORT_MASTER), COUNT, COUNT];
  }

  // ------------------------------------------------------------------ many transactions

  function Transactions(commands: seq<Command>): seq<Access> {
    if commands == [] then [] else Transaction(PacketWords(commands[0])) + Transactions(commands[1..])
  }

  function Statuses(n: nat): seq<u8> {
    if n == 0 then [] else [PACKET_DATA_TRANSMIT, PACKET_COMMAND_COMPLETE] + Statuses(n - 1)
  }

  /** The commands are for block `b`, the one after it, and so on, all on the disk and below the wrap. */
  ghost predicate Consecutive(disk: seq<u8>, commands: seq<Command>, b: nat) {
    && (forall i :: 0 <= i < |commands| ==> Block(commands[i]) == b + i)
    && b + |commands| <= SEEK_SPAN && 2048 * (b + |commands|) <= |disk|
  }

  lemma ConsecutiveRest(disk: seq<u8>, commands: seq<Command>, b: nat)
    requires Consecutive(disk, commands, b) && commands != []
    ensures Block(commands[0]) == b < SEEK_SPAN && 2048 * (b + 1) <= |disk|
    ensures Consecutive(disk, commands[1..], b + 1)
  {
  }

  /** `n` blocks of the disk from block `b` on. */
  function Blocks(disk: seq<u8>, b: nat, n: nat): (bytes: seq<u8>)
    requires 2048 * (b + n) <= |disk|
    ensures |bytes| == 2048 * n
  {
    disk[2048 * b..2048 * (b + n)]
  }

  lemma BlocksSplit(disk: seq<u8>, b: nat, n: nat)
    requires 2048 * (b + n) <= |disk| && n > 0
    ensures WordsOf(Blocks(disk, b, n)) == WordsOf(Blocks(disk, b, 1)) + WordsOf(Blocks(disk, b + 1, n - 1))
  {
    assert Blocks(disk, b, n) == Blocks(disk, b, 1) + Blocks(disk, b + 1, n - 1);
    WordsOfConcat(Blocks(disk, b, 1), Blocks(disk, b + 1, n - 1));
  }

  /** A run read `n` blocks of the disk from block `b` on, each between its two statuses, and left the drive ready. */
  ghost predicate Delivers(disk: seq<u8>, r: Outcome, b: nat, n: nat)
    requires 2048 * (b + n) <= |disk|
  {
    r.data == WordsOf(Blocks(disk, b, n)) && r.counts == Statuses(n) && Ready(r.drive)
  }

  lemma DeliversMore(disk: seq<u8>, r: Outcome, s: Outcome, b: nat, n: nat)
    requires 2048 * (b + n) <= |disk| && n > 0
    requires Delivers(disk, r, b, 1) && Delivers(disk, s, b + 1, n - 1)
    ensures Delivers(disk, Outcome(s.drive, r.data + s.data, r.counts + s.counts), b, n)
  {
    BlocksSplit(disk, b, n);
  }

  /** A transaction for any block address reads the block that the address names modulo 2^21. */
  lemma {:induction false} TransactionReadsTheDisk(disk: seq<u8>, d: Drive, c: Command)
    requires Ready(d) && 2048 * (Reached(Block(c)) + 1) <= |disk|
    ensures Delivers(disk, Run(disk, d, Transaction(PacketWords(c))), Reached(Block(c)), 1)
  {
    TransactionReadsOneBlock(disk, d, c);
    SeekWraps(Block(c));
    assert Loaded(disk, d, c).toSend == Blocks(disk, Reached(Block(c)), 1);
  }

  /** Below block 2^21 that is the block asked for. */
  lemma {:induction false} TransactionReadsThatBlock(disk: seq<u8>, d: Drive, c: Command)
    requires Ready(d) && Block(c) < SEEK_SPAN && 2048 * (Block(c) + 1) <= |disk|
    ensures Delivers(disk, Run(disk, d, Transaction(PacketWords(c))), Block(c), 1)
  {
    SeekWraps(Block(c));
    TransactionReadsTheDisk(disk, d, c);
  }

  /** A run put together from two. */
  function Joined(r: Outcome, s: Outcome): Outcome {
    Outcome(s.drive, r.data + s.data, r.counts + s.counts)
  }

  /** One transaction after the other. */
  function InTurn(disk: seq<u8>, d: Drive, commands: seq<Command>): (r: Outcome)
    requires Shaped(d)
    ensures Shaped(r.drive)
    decreases |commands|
  {
    if commands == [] then Outcome(d, [], [])
    else
      var r := Run(disk, d, Transaction(PacketWords(commands[0])));
      Joined(r, InTurn(disk, r.drive, commands[1..]))
  }

  lemma {:induction false} TransactionsRunInTurn(disk: seq<u8>, d: Drive, commands: seq<Command>)
    requires Shaped(d)
    ensures Run(disk, d, Transactions(commands)) == InTurn(disk, d, commands)
    decreases |commands|
  {
    if commands == [] {
    } else {
      var first := Transaction(PacketWords(commands[0]));
      TransactionsRunInTurn(disk, Run(disk, d, first).drive, commands[1..]);
      RunConcat(disk, d, first, Transactions(commands[1..]));
    }
  }

  lemma {:induction false} InTurnDelivers(disk: seq<u8>, d: Drive, commands: seq<Command>, b: nat)
    requires Ready(d) && Consecutive(disk, commands, b)
    ensures Delivers(disk, InTurn(disk, d, commands), b, |commands|)
    decreases |commands|
  {
    if commands == [] {
    } else {
      var r := Run(disk, d, Transaction(PacketWords(commands[0])));
      ConsecutiveRest(disk, commands, b);
      TransactionReadsThatBlock(disk, d, commands[0]);
      InTurnDelivers(disk, r.drive, commands[1..], b + 1);
      DeliversMore(disk, r, InTurn(disk, r.drive, commands[1..]), b, |commands|);
    }
  }

  /** Transactions for consecutive blocks that lie on the disk read that stretch of the disk. */
  lemma ConsecutiveBlocks(disk: seq<u8>, d: Drive, commands: seq<Command>, b: nat)
    requires Ready(d) && Consecutive(disk, commands, b)
    ensures Delivers(disk, Run(disk, d, Transactions(commands)), b, |commands|)
  {
    TransactionsRunInTurn(disk, d, commands);
    InTurnDelivers(disk, d, commands, b);
  }

  // ------------------------------------------------------------------ transactions amid other accesses

  /**
   What a guest does around one command: `asking` up to the sector count read that hands the packet
   over, `reading` from there up to the one that completes the transfer.
   */
  datatype Exchange = Exchange(asking: seq<Access>, reading: seq<Access>)

  function AccessesOf(x: Exchange): seq<Access> {
    (x.asking + [COUNT]) + (x.reading + [COUNT])
  }

  /**
   The guest writes the six words of the command first and reads no data yet; whatever else it does,
   no sector count tells it of a hand-over, and it has the master selected in the end.
   */
  ghost predicate Asks(disk: seq<u8>, d: Drive, asking: seq<Access>, c: Command)
    requires Shaped(d)
  {
    && ReadWord !in asking
    && PACKET_DATA_TRANSMIT !in Run(disk, d, asking).counts
    && |WordsWritten(asking)| >= 6 && WordsWritten(asking)[..6] == PacketWords(c)
    && Run(disk, d, asking).drive.selected == ATA_PORT_MASTER
  }

  /** The guest reads some data; whatever else it does, no sector count tells it of a hand-over or a completion. */
  ghost predicate ReadsOn(disk: seq<u8>, d: Drive, reading: seq<Access>)
    requires Shaped(d)
  {
    && OneTransfer(disk, d, reading)
    && Run(disk, d, reading).drive.sending
    && Run(disk, d, reading).drive.selected == ATA_PORT_MASTER
  }

  ghost predicate Orderly(disk: seq<u8>, d: Drive, x: Exchange, c: Command)
    requires Shaped(d)
  {
    && Asks(disk, d, x.asking, c)
    && ReadsOn(disk, Run(disk, d, x.asking + [COUNT]).drive, x.reading)
  }

  /** A guest that keeps off the sector count sees no status, so those conditions hold for it. */
  lemma {:induction false} NoCountsRead(disk: seq<u8>, d: Drive, accesses: seq<Access>)
    requires Shaped(d) && COUNT !in accesses
    ensures Run(disk, d, accesses).counts == []
    decreases |accesses|
  {
    if accesses == [] {
    } else {
      RunUnfolds(disk, d, accesses);
      assert accesses[0] in accesses;
      NoCountsRead(disk, Step(disk, d, accesses[0]), accesses[1..]);
    }
  }

  /** Without a data read no transfer begins. */
  lemma {:induction false} NothingRead(disk: seq<u8>, d: Drive, accesses: seq<Access>)
    requires Inv(d) && !d.sending && ReadWord !in accesses
    requires PACKET_DATA_TRANSMIT !in Run(disk, d, accesses).counts
    ensures var r := Run(disk, d, accesses);
            && r.data == [] && PACKET_COMMAND_COMPLETE !in r.counts
            && Inv(r.drive) && !r.drive.sending && r.drive.toSend == d.toSend
    decreases |accesses|
  {
    if accesses == [] {
    } else {
      var a := accesses[0];
      assert a in accesses && a != ReadWord;
      RunUnfolds(disk, d, accesses);
      StepKeepsInv(disk, d, a);
      NothingRead(disk, Step(disk, d, a), accesses[1..]);
    }
  }

  lemma {:induction false} BytesOfPrefix(words: seq<u16>, n: nat, j: nat)
    requires j < 2 * n <= 2 * |words|
    ensures BytesOf(words)[j] == BytesOf(words[..n])[j]
    decreases n
  {
    assert words[..n][1..] == words[1..][..n - 1] && words[..n][0] == words[0];
    if j < 2 {
    } else {
      BytesOfPrefix(words[1..], n - 1, j - 2);
    }
  }

  /** The first six words fill the packet. */
  lemma FilledByFirstSix(packet: seq<u8>, words: seq<u16>)
    requires |packet| == PACKET_SZ && |words| >= 6
    ensures Fill(packet, 0, words) == BytesOf(words[..6])
  {
    forall j | 0 <= j < PACKET_SZ ensures Fill(packet, 0, words)[j] == BytesOf(words[..6])[j] {
      FillAt(packet, 0, words, j);
      BytesOfPrefix(words, 6, j);
    }
  }

  /** The drive that `Asks` leaves: a whole packet, nothing sent. */
  lemma AskedIs(disk: seq<u8>, d: Drive, asking: seq<Access>, c: Command)
    requires Inv(d) && Idle(d) && Asks(disk, d, asking, c)
    ensures var r := Run(disk, d, asking);
            && r.data == [] && PACKET_COMMAND_COMPLETE !in r.counts
            && Inv(r.drive) && r.drive.receiving && !r.drive.sending
            && r.drive.packet == BytesOf(PacketWords(c)) && r.drive.toSend == d.toSend
  {
    NothingRead(disk, d, asking);
    ReceivingContinues(disk, d, asking);
    FilledByFirstSix(d.packet, WordsWritten(asking));
  }

  /** ... and what the sector count read makes of it. */
  lemma HandedOver(disk: seq<u8>, d: Drive, c: Command)
    requires Inv(d) && d.receiving && !d.sending && d.selected == ATA_PORT_MASTER
    requires d.packet == BytesOf(PacketWords(c))
    ensures var t := Step(disk, d, COUNT);
            && Inv(t) && Idle(t) && t.toSend == ReadDisk(disk, SeekOffset(Block(c)), d.toSend)
            && DataOf(d, COUNT) == [] && CountsOf(d, COUNT) == [PACKET_DATA_TRANSMIT]
  {
    PacketOf(c);
  }

  lemma Asking(disk: seq<u8>, d: Drive, asking: seq<Access>, c: Command)
    requires Inv(d) && Idle(d) && Asks(disk, d, asking, c)
    ensures var r := Run(disk, d, asking + [COUNT]);
            && Inv(r.drive) && Idle(r.drive) && r.data == []
            && r.drive.toSend == ReadDisk(disk, SeekOffset(Block(c)), d.toSend)
            && r.counts == Run(disk, d, asking).counts + [PACKET_DATA_TRANSMIT]
  {
    var a := Run(disk, d, asking).drive;
    AskedIs(disk, d, asking, c);
    HandedOver(disk, a, c);
    LastAccess(disk, a, COUNT);
    RunConcat(disk, d, asking, [COUNT]);
  }

  /** Reading on to the completion: the words of the block, and the status. */
  lemma Reading(disk: seq<u8>, d: Drive, reading: seq<Access>)
    requires Inv(d) && Idle(d) && ReadsOn(disk, d, reading)
    ensures var r := Run(disk, d, reading + [COUNT]);
            && Inv(r.drive) && !r.drive.sending && r.drive.toSend == d.toSend
            && r.data == Stream(d.toSend, 0, |r.data|)
            && r.data == Run(disk, d, reading).data
            && r.counts == Run(disk, d, reading).counts + [PACKET_COMMAND_COMPLETE]
            && r.drive.receiving == Run(disk, d, reading).drive.receiving
            && r.drive.selected == ATA_PORT_MASTER
  {
    var e := Run(disk, d, reading).drive;
    SendingContinues(disk, d, reading);
    SendingReadsTheBlock(disk, d, reading);
    Completed(disk, e);
    LastAccess(disk, e, COUNT);
    RunConcat(disk, d, reading, [COUNT]);
    assert Run(disk, d, reading).data + [] == Run(disk, d, reading).data;
  }

  /**
   A command from any idle state, with any other accesses in between: the words read are those of
   the addressed block, in order and then zeros; the sector counts tell of the hand-over and of the
   completion and, in between, of neither; and the transfer is over.
   */
  lemma TransactionAmidOtherAccesses(disk: seq<u8>, d: Drive, x: Exchange, c: Command)
    requires Inv(d) && Idle(d) && Orderly(disk, d, x, c)
    ensures var r := Run(disk, d, AccessesOf(x));
            var block := ReadDisk(disk, SeekOffset(Block(c)), d.toSend);
            var asked := Run(disk, d, x.asking + [COUNT]);
            var reading := Run(disk, asked.drive, x.reading);
            && r.data == Stream(block, 0, |r.data|) && |r.data| == |reading.data|
            && r.counts == Run(disk, d, x.asking).counts + [PACKET_DATA_TRANSMIT]
                           + (reading.counts + [PACKET_COMMAND_COMPLETE])
            && Inv(r.drive) && !r.drive.sending && r.drive.toSend == block
            && r.drive.receiving == reading.drive.receiving && r.drive.selected == ATA_PORT_MASTER
  {
    var asked := Run(disk, d, x.asking + [COUNT]);
    Asking(disk, d, x.asking, c);
    Reading(disk, asked.drive, x.reading);
    RunConcat(disk, d, x.asking + [COUNT], x.reading + [COUNT]);
    var rest := Run(disk, asked.drive, x.reading + [COUNT]);
    assert [] + rest.data == rest.data;
  }

  /** A run neither gains nor loses a packet unless the guest writes words. */
  lemma {:induction false} NothingWritten(disk: seq<u8>, d: Drive, accesses: seq<Access>)
    requires Inv(d) && !d.receiving && WordsWritten(accesses) == []
    ensures !Run(disk, d, accesses).drive.receiving
    decreases |accesses|
  {
    if accesses == [] {
    } else {
      RunUnfolds(disk, d, accesses);
      StepKeepsInv(disk, d, accesses[0]);
      NothingWritten(disk, Step(disk, d, accesses[0]), accesses[1..]);
    }
  }

  /** One exchange after another, each orderly, each reading one block and writing nothing meanwhile. */
  ghost predicate AllOrderly(disk: seq<u8>, d: Drive, xs: seq<Exchange>, cs: seq<Command>)
    requires Shaped(d)
    decreases |xs|
  {
    && |xs| == |cs|
    && (xs != [] ==>
          && Orderly(disk, d, xs[0], cs[0])
          && WordsWritten(xs[0].reading) == []
          && |Run(disk, d, AccessesOf(xs[0])).data| == BLOCK_WORDS
          && AllOrderly(disk, Run(disk, d, AccessesOf(xs[0])).drive, xs[1..], cs[1..]))
  }

  function AllAccesses(xs: seq<Exchange>): seq<Access> {
    if xs == [] then [] else AccessesOf(xs[0]) + AllAccesses(xs[1..])
  }

  /** A run read `n` blocks of the disk from block `b` on and left nothing open. */
  ghost predicate ReadThem(disk: seq<u8>, r: Outcome, b: nat, n: nat)
    requires 2048 * (b + n) <= |disk|
  {
    r.data == WordsOf(Blocks(disk, b, n)) && Inv(r.drive) && Idle(r.drive)
  }

  lemma ReadMore(disk: seq<u8>, r: Outcome, s: Outcome, b: nat, n: nat)
    requires 2048 * (b + n) <= |disk| && n > 0
    requires ReadThem(disk, r, b, 1) && ReadThem(disk, s, b + 1, n - 1)
    ensures ReadThem(disk, Outcome(s.drive, r.data + s.data, r.counts + s.counts), b, n)
  {
    BlocksSplit(disk, b, n);
  }

  lemma ReadThen(disk: seq<u8>, d: Drive, first: seq<Access>, rest: seq<Access>, b: nat, n: nat)
    requires Shaped(d) && 2048 * (b + n) <= |disk| && n > 0
    requires var r := Run(disk, d, first);
             ReadThem(disk, r, b, 1) && ReadThem(disk, Run(disk, r.drive, rest), b + 1, n - 1)
    ensures ReadThem(disk, Run(disk, d, first + rest), b, n)
  {
    var r := Run(disk, d, first);
    RunConcat(disk, d, first, rest);
    ReadMore(disk, r, Run(disk, r.drive, rest), b, n);
  }

  /** One orderly exchange for a block on the disk reads that block and leaves the drive idle. */
  lemma ExchangeReadsThatBlock(disk: seq<u8>, d: Drive, x: Exchange, c: Command)
    requires Inv(d) && Idle(d) && Orderly(disk, d, x, c) && WordsWritten(x.reading) == []
    requires |Run(disk, d, AccessesOf(x)).data| == BLOCK_WORDS
    requires Block(c) < SEEK_SPAN && 2048 * (Block(c) + 1) <= |disk|
    ensures ReadThem(disk, Run(disk, d, AccessesOf(x)), Block(c), 1)
  {
    var block := ReadDisk(disk, SeekOffset(Block(c)), d.toSend);
    var asked := Run(disk, d, x.asking + [COUNT]).drive;
    TransactionAmidOtherAccesses(disk, d, x, c);
    Asking(disk, d, x.asking, c);
    NothingWritten(disk, asked, x.reading);
    WholeStream(block);
    SeekWraps(Block(c));
    assert block == Blocks(disk, Block(c), 1);
  }

  /** Orderly exchanges for consecutive blocks on the disk read that stretch of it, whatever happens in between. */
  lemma {:induction false} ConsecutiveExchanges(disk: seq<u8>, d: Drive, xs: seq<Exchange>, cs: seq<Command>, b: nat)
    requires Inv(d) && Idle(d) && AllOrderly(disk, d, xs, cs) && Consecutive(disk, cs, b)
    ensures ReadThem(disk, Run(disk, d, AllAccesses(xs)), b, |cs|)
    decreases |xs|
  {
    if xs == [] {
    } else {
      var first := AccessesOf(xs[0]);
      var r := Run(disk, d, first);
      ConsecutiveRest(disk, cs, b);
      ExchangeReadsThatBlock(disk, d, xs[0], cs[0]);
      ConsecutiveExchanges(disk, r.drive, xs[1..], cs[1..], b + 1);
      ReadThen(disk, d, first, AllAccesses(xs[1..]), b, |cs|);
    }
  }

  lemma {:induction false} OnlyWrites(words: seq<u16>)
    ensures ReadWord !in Writes(words) && COUNT !in Writes(words) && WordsWritten(Writes(words)) == words
    decreases |words|
  {
    if words == [] {
    } else {
      OnlyWrites(words[1..]);
    }
  }

  /** The plain transaction is such an exchange, with nothing in between. */
  lemma TransactionIsAnExchange(disk: seq<u8>, d: Drive, c: Command)
    requires Ready(d)
    ensures var x := Exchange(Writes(PacketWords(c)), Reads(BLOCK_WORDS));
            AccessesOf(x) == Transaction(PacketWords(c)) && Orderly(disk, d, x, c)
  {
    var words := PacketWords(c);
    OnlyWrites(words);
    WritesFill(disk, d, words);
    PacketIsTaken(disk, d, c);
    PacketOf(c);
    ReadsStream(disk, Loaded(disk, d, c), BLOCK_WORDS);
    assert words[..6] == words;
    Associative(Writes(words), [COUNT], Reads(BLOCK_WORDS) + [COUNT]);
  }
}
