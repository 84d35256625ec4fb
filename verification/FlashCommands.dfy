/** The flash commands made of transfers, and the erasing of a range. All are stated for runs
    without an abort. */
module FlashCommands {
  import opened FlashPump
  import opened Rounding

  const PAGE_PROGRAM: byte := 0x02
  const READ_DATA: byte := 0x03
  const READ_STATUS: byte := 0x05
  const WRITE_ENABLE: byte := 0x06
  const SECTOR_ERASE: byte := 0x20

  ghost predicate Idle(ssi: Ssi)
    reads ssi
  {
    ssi.Lossless() && ssi.InFlight() == 0 && ssi.seen == [] && !ssi.selected && !ssi.aborted && !ssi.mayAbort
  }

  function AddressBytes(addr: nat): (r: seq<byte>)
    requires addr < 0x100_0000
    ensures |r| == 3
  {
    [addr / 0x1_0000, addr / 0x100 % 0x100, addr % 0x100]
  }

  lemma AddressDigits(addr: nat)
    requires addr < 0x100_0000
    ensures AddressBytes(addr) == [addr / 0x1_0000, addr / 0x100 % 0x100, addr % 0x100]
    ensures addr / 0x1_0000 * 0x1_0000 + addr / 0x100 % 0x100 * 0x100 + addr % 0x100 == addr
  {
  }

  /** flash_do_cmd: one command, the chip's replies to its data bytes in rx. */
  method DoCmd(ssi: Ssi, cmd: byte, tx: array?<byte>, rx: array?<byte>, count: nat)
    requires Idle(ssi) && (tx != null ==> count <= tx.Length) && (rx != null ==> count <= rx.Length)
    modifies ssi, rx
    ensures Idle(ssi) && ssi.log == old(ssi.log) + [[cmd] + old(Outgoing(tx, count))]
    ensures rx != null ==>
              && rx[..count] == Replies(ssi.answer, old(ssi.log), [cmd], old(Outgoing(tx, count)))
              && rx[count..] == old(rx[..])[count..]
  {
    hide Outgoing, Replies;
    ssi.CsForce(false);
    ssi.AllSeen();
    ssi.WriteDr0(cmd);
    assert ssi.Sent() == [cmd];
    ghost var received := PutGet(ssi, tx, rx, count, 1);
    ghost var replies := Replies(ssi.answer, old(ssi.log), [cmd], old(Outgoing(tx, count)));
    assert replies[..count] == replies;
  }

  /** flash_put_cmd_addr: the command and the address, most significant byte first. */
  method PutCmdAddr(ssi: Ssi, cmd: byte, addr: nat)
    requires Idle(ssi) && addr < 0x100_0000
    modifies ssi
    ensures ssi.Lossless() && ssi.InFlight() == 4 && ssi.selected && !ssi.aborted && ssi.log == old(ssi.log)
    ensures ssi.Sent() == [cmd, addr / 0x1_0000, addr / 0x100 % 0x100, addr % 0x100]
  {
    ssi.CsForce(false);
    ssi.AllSeen();
    hide Ssi.Lossless, Ssi.InFlight, Ssi.Sent;
    var a := addr + cmd * 0x100_0000;
    ghost var all := [cmd] + AddressBytes(addr);
    var i := 0;
    while i < 4
      invariant i <= 4 && a == Rest(all[0], all[1], all[2], all[3], i)
      invariant ssi.Lossless() && ssi.InFlight() == i && ssi.selected && !ssi.aborted && ssi.log == old(ssi.log)
      invariant ssi.Sent() == all[..i]
    {
      TopByte(all[0], all[1], all[2], all[3], i);
      ssi.WriteDr0(a / 0x100_0000);
      a := a * 0x100 % 0x1_0000_0000;
      i := i + 1;
    }
    assert all[..4] == all;
  }

  /** The register after i of the bytes c, x, y, z have been shifted out. */
  function Rest(c: nat, x: nat, y: nat, z: nat, i: nat): nat
    requires i <= 4
  {
    match i
    case 0 => c * 0x100_0000 + x * 0x1_0000 + y * 0x100 + z
    case 1 => x * 0x100_0000 + y * 0x1_0000 + z * 0x100
    case 2 => y * 0x100_0000 + z * 0x1_0000
    case 3 => z * 0x100_0000
    case 4 => 0
  }

  lemma TopByte(c: byte, x: byte, y: byte, z: byte, i: nat)
    requires i < 4
    ensures Rest(c, x, y, z, i) / 0x100_0000 == [c, x, y, z][i]
    ensures Rest(c, x, y, z, i) * 0x100 % 0x1_0000_0000 == Rest(c, x, y, z, i + 1)
  {
    match i
    case 0 => TopOf(c, x * 0x1_0000 + y * 0x100 + z);
    case 1 => TopOf(x, y * 0x1_0000 + z * 0x100);
    case 2 => TopOf(y, z * 0x1_0000);
    case 3 => TopOf(z, 0);
  }

  lemma TopOf(q: byte, r: nat)
    requires r < 0x100_0000
    ensures (q * 0x100_0000 + r) / 0x100_0000 == q && (q * 0x100_0000 + r) * 0x100 % 0x1_0000_0000 == r * 0x100
  {
    assert (q * 0x100_0000 + r) * 0x100 == q * 0x1_0000_0000 + r * 0x100;
  }

  ghost function Polls(n: nat): seq<seq<byte>> { seq(n, _ => [READ_STATUS, 0]) }

  /** A chip that is ready after at most a given number of polls, whatever it was told before. */
  ghost predicate EventuallyReady(answer: (seq<seq<byte>>, seq<byte>) -> byte, limit: nat) {
    forall log :: WillBeReady(answer, log, limit)
  }

  ghost predicate WillBeReady(answer: (seq<seq<byte>>, seq<byte>) -> byte, log: seq<seq<byte>>, limit: nat) {
    exists n :: 0 <= n <= limit && Ready(answer, log, n)
  }

  ghost predicate Ready(answer: (seq<seq<byte>>, seq<byte>) -> byte, log: seq<seq<byte>>, n: nat) {
    answer(log + Polls(n), [READ_STATUS, 0]) % 2 == 0
  }

  /** flash_wait_ready: polls up to and including the first that finds the chip ready. */
  method WaitReady(ssi: Ssi, ghost limit: nat) returns (ghost polls: nat)
    requires Idle(ssi) && EventuallyReady(ssi.answer, limit)
    modifies ssi
    ensures Idle(ssi) && ssi.log == old(ssi.log) + Polls(polls + 1) && polls <= limit
    ensures ssi.answer(old(ssi.log) + Polls(polls), [0x05, 0]) % 2 == 0
    ensures forall n :: 0 <= n < polls ==> ssi.answer(old(ssi.log) + Polls(n), [0x05, 0]) % 2 == 1
  {
    assert WillBeReady(ssi.answer, ssi.log, limit);
    hide Idle, Replies, Ready, Polls, Outgoing, EventuallyReady;
    polls := 0;
    ghost var last :| 0 <= last <= limit && Ready(ssi.answer, ssi.log, last);
    var stat := new byte[1];
    NoPolls(ssi.log);
    while true
      invariant Idle(ssi) && polls <= last && ssi.log == old(ssi.log) + Polls(polls)
      invariant forall n :: 0 <= n < polls ==> !Ready(ssi.answer, old(ssi.log), n)
      decreases last - polls
    {
      var ready := Poll(ssi, stat, old(ssi.log), polls);
      if ready { break; }
      polls := polls + 1;
    }
    forall n | 0 <= n <= polls
      ensures Ready(ssi.answer, old(ssi.log), n) <==> ssi.answer(old(ssi.log) + Polls(n), [0x05, 0]) % 2 == 0
    {
      ReadyMeans(ssi.answer, old(ssi.log), n);
    }
  }

  lemma ReadyMeans(answer: (seq<seq<byte>>, seq<byte>) -> byte, log: seq<seq<byte>>, n: nat)
    ensures Ready(answer, log, n) <==> answer(log + Polls(n), [0x05, 0]) % 2 == 0
  {
  }

  lemma NoPolls(log: seq<seq<byte>>)
    ensures log + Polls(0) == log
  {
  }

  method Poll(ssi: Ssi, stat: array<byte>, ghost before: seq<seq<byte>>, ghost n: nat) returns (ready: bool)
    requires Idle(ssi) && stat.Length == 1 && ssi.log == before + Polls(n)
    modifies ssi, stat
    ensures Idle(ssi) && ssi.log == before + Polls(n + 1) && ready == Ready(ssi.answer, before, n)
  {
    hide Idle, Replies;
    OnePoll(ssi.answer, ssi.log);
    DoCmd(ssi, READ_STATUS, null, stat, 1);
    assert stat[0] == stat[..1][0];
    assert before + Polls(n) + [[READ_STATUS, 0]] == before + Polls(n + 1);
    ready := stat[0] % 2 == 0;
  }

  lemma OnePoll(answer: (seq<seq<byte>>, seq<byte>) -> byte, log: seq<seq<byte>>)
    ensures [READ_STATUS] + seq(1, _ => 0) == [READ_STATUS, 0]
    ensures Replies(answer, log, [READ_STATUS], seq(1, _ => 0))[0] == answer(log, [READ_STATUS, 0])
  {
    var out: seq<byte> := seq(1, _ => 0);
    assert [READ_STATUS] + out[..1] == [READ_STATUS, 0];
  }

  method EnableWrite(ssi: Ssi)
    requires Idle(ssi)
    modifies ssi
    ensures Idle(ssi) && ssi.log == old(ssi.log) + [[WRITE_ENABLE]]
  {
    hide Idle;
    DoCmd(ssi, WRITE_ENABLE, null, null, 0);
    assert [WRITE_ENABLE] + Outgoing(null, 0) == [WRITE_ENABLE];
  }

  /** flash_page_program: what reaches the chip. */
  method PageProgram(ssi: Ssi, addr: nat, data: array<byte>, ghost limit: nat) returns (ghost polls: nat)
    requires Idle(ssi) && addr < 0x100_0000 && addr % 256 == 0 && data.Length >= 256
             && EventuallyReady(ssi.answer, limit)
    modifies ssi
    ensures Idle(ssi)
    ensures ssi.log == old(ssi.log)
            + [[0x06], [0x02, addr / 0x1_0000, addr / 0x100 % 0x100, addr % 0x100] + data[..256]] + Polls(polls + 1)
  {
    hide EventuallyReady, Polls;
    EnableWrite(ssi);
    PutCmdAddr(ssi, PAGE_PROGRAM, addr);
    ghost var sent := ssi.Sent();
    ghost var received := PutGet(ssi, data, null, 256, 4);
    assert ssi.log == old(ssi.log) + [[WRITE_ENABLE], sent + data[..256]];
    polls := WaitReady(ssi, limit);
  }

  /** flash_user_erase: what reaches the chip. */
  method UserErase(ssi: Ssi, addr: nat, cmd: byte, ghost limit: nat) returns (ghost polls: nat)
    requires Idle(ssi) && addr < 0x100_0000 && EventuallyReady(ssi.answer, limit)
    modifies ssi
    ensures Idle(ssi) && ssi.log == old(ssi.log)
            + [[0x06], [cmd, addr / 0x1_0000, addr / 0x100 % 0x100, addr % 0x100]] + Polls(polls + 1)
  {
    hide EventuallyReady, Polls;
    EnableWrite(ssi);
    PutCmdAddr(ssi, cmd, addr);
    ghost var sent := ssi.Sent();
    assert sent + Outgoing(null, 0) == sent;
    ghost var received := PutGet(ssi, null, null, 0, 4);
    assert ssi.log == old(ssi.log) + [[WRITE_ENABLE], sent];
    polls := WaitReady(ssi, limit);
  }

  /** flash_read_data: the chip's replies after the command and the address. */
  method ReadData(ssi: Ssi, addr: nat, rx: array<byte>, count: nat)
    requires Idle(ssi) && addr < 0x100_0000 && count <= rx.Length
    modifies ssi, rx
    ensures Idle(ssi)
    ensures ssi.log == old(ssi.log)
            + [[0x03, addr / 0x1_0000, addr / 0x100 % 0x100, addr % 0x100] + seq(count, _ => 0)]
    ensures forall i :: 0 <= i < count ==>
              rx[i] == ssi.answer(old(ssi.log),
                                  [0x03, addr / 0x1_0000, addr / 0x100 % 0x100, addr % 0x100] + seq(i + 1, _ => 0))
    ensures rx[count..] == old(rx[count..])
  {
    PutCmdAddr(ssi, READ_DATA, addr);
    ghost var before, zeros := ssi.Sent(), seq(count, _ => 0);
    ghost var received := PutGet(ssi, null, rx, count, 4);
    forall i | 0 <= i < count ensures rx[i] == ssi.answer(old(ssi.log), before + seq(i + 1, _ => 0)) {
      assert zeros[..i + 1] == seq(i + 1, _ => 0);
      assert rx[i] == rx[..count][i];
    }
  }

  // ---- Erasing a range ----

  /** An erase of size bytes from addr. */
  datatype Erase = Erase(cmd: byte, addr: nat, size: nat)

  predicate Covers(e: Erase, a: nat) { e.addr <= a < e.addr + e.size }

  ghost predicate Covered(erases: seq<Erase>, a: nat) {
    exists i :: 0 <= i < |erases| && Covers(erases[i], a)
  }

  /** What a chip makes of a command of four bytes: the address comes most significant byte first,
      and how much is erased goes by the command. */
  function Understood(c: seq<byte>, sizes: byte -> nat): Erase
    requires |c| == 4
  {
    Erase(c[0], c[1] as int * 0x1_0000 + c[2] as int * 0x100 + c[3], sizes(c[0]))
  }

  /** The erase commands among what the chip has received: a command byte and an address. */
  ghost function Erases(log: seq<seq<byte>>): seq<seq<byte>> {
    if log == [] then []
    else Erases(log[..|log| - 1]) + if |log[|log| - 1]| == 4 then [log[|log| - 1]] else []
  }

  lemma {:induction false} FourBytes(log: seq<seq<byte>>, i: nat)
    requires i < |Erases(log)|
    ensures |Erases(log)[i]| == 4
  {
    var n := |log| - 1;
    if i < |Erases(log[..n])| { FourBytes(log[..n], i); }
  }

  /** The erases a chip carries out of what it has received. */
  ghost function Received(log: seq<seq<byte>>, sizes: byte -> nat): seq<Erase> {
    seq(|Erases(log)|, i requires 0 <= i < |Erases(log)| => FourBytes(log, i); Understood(Erases(log)[i], sizes))
  }

  /** Each of them comes right after a write enable. */
  ghost predicate Enabled(log: seq<seq<byte>>) {
    forall i :: 0 <= i < |log| && |log[i]| == 4 ==> i > 0 && log[i - 1] == [WRITE_ENABLE]
  }

  lemma {:induction false} ErasesConcat(a: seq<seq<byte>>, b: seq<seq<byte>>)
    ensures Erases(a + b) == Erases(a) + Erases(b)
  {
    if b == [] {
      assert a + b == a;
    } else {
      ErasesConcat(a, b[..|b| - 1]);
      assert (a + b)[..|a + b| - 1] == a + b[..|b| - 1];
    }
  }

  lemma {:induction false} PollsEraseNothing(n: nat)
    ensures Erases(Polls(n)) == []
  {
    if n > 0 {
      PollsEraseNothing(n - 1);
      assert Polls(n)[..n - 1] == Polls(n - 1);
    }
  }

  ghost function Commands(erases: seq<Erase>): seq<seq<byte>>
    requires forall e :: e in erases ==> e.addr < 0x100_0000
  {
    seq(|erases|, i requires 0 <= i < |erases| => [erases[i].cmd] + AddressBytes(erases[i].addr))
  }

  /** The erases follow one another from one address to another, each aligned to its size. */
  ghost predicate Tiles(erases: seq<Erase>, from: nat, to: nat) {
    if erases == [] then from == to
    else
      var last := erases[|erases| - 1];
      && Tiles(erases[..|erases| - 1], from, last.addr) && last.addr + last.size == to
      && last.size > 0 && last.addr % last.size == 0
  }

  /** What tiling means: every byte of the range is erased once, and none outside it. */
  lemma {:induction false} TilesOnce(erases: seq<Erase>, from: nat, to: nat, a: nat)
    requires Tiles(erases, from, to)
    ensures from <= to
    ensures Covered(erases, a) <==> from <= a < to
    ensures forall i, j :: 0 <= i < j < |erases| && Covers(erases[i], a) ==> !Covers(erases[j], a)
  {
    if erases != [] {
      var n := |erases| - 1;
      TilesOnce(erases[..n], from, erases[n].addr, a);
      assert forall i :: 0 <= i < n ==> erases[..n][i] == erases[i];
      assert Covered(erases, a) <==> Covered(erases[..n], a) || Covers(erases[n], a);
    }
  }

  function RoundUp(n: nat): nat { (n + 4095) / 4096 * 4096 }

  /** What the chip has received amounts to the erases, and they reach from one address to another. */
  ghost predicate Done(log: seq<seq<byte>>, erases: seq<Erase>, from: nat, to: nat) {
    && (forall e :: e in erases ==> e.addr < 0x100_0000)
    && Erases(log) == Commands(erases) && Enabled(log) && Tiles(erases, from, to)
  }

  lemma CommandErases(c: seq<byte>)
    requires |c| == 4
    ensures Erases([[WRITE_ENABLE], c]) == [c]
  {
    assert [[WRITE_ENABLE], c][..1] == [[WRITE_ENABLE]];
    assert Erases([[WRITE_ENABLE]]) == [];
  }

  lemma AppendedErases(log: seq<seq<byte>>, c: seq<byte>, polls: nat)
    requires |c| == 4
    ensures Erases(log + ([[WRITE_ENABLE], c] + Polls(polls))) == Erases(log) + [c]
  {
    hide Erases, Polls;
    ErasesConcat(log, [[WRITE_ENABLE], c] + Polls(polls));
    ErasesConcat([[WRITE_ENABLE], c], Polls(polls));
    PollsEraseNothing(polls);
    CommandErases(c);
  }

  lemma AppendedEnabled(log: seq<seq<byte>>, c: seq<byte>, polls: nat)
    requires Enabled(log)
    ensures Enabled(log + ([[WRITE_ENABLE], c] + Polls(polls)))
  {
  }

  lemma AppendedTiles(erases: seq<Erase>, from: nat, e: Erase)
    requires Tiles(erases, from, e.addr) && e.size > 0 && e.addr % e.size == 0
    ensures Tiles(erases + [e], from, e.addr + e.size)
  {
    assert (erases + [e])[..|erases|] == erases;
  }

  /** One erase appended to what has been done. */
  lemma Appended(log: seq<seq<byte>>, erases: seq<Erase>, from: nat, e: Erase, polls: nat)
    requires Done(log, erases, from, e.addr) && e.addr < 0x100_0000 && e.size > 0 && e.addr % e.size == 0
    ensures Done(log + ([[WRITE_ENABLE], [e.cmd] + AddressBytes(e.addr)] + Polls(polls)),
                 erases + [e], from, e.addr + e.size)
  {
    var c := [e.cmd] + AddressBytes(e.addr);
    hide AddressBytes, Polls, Erases, Enabled, Tiles;
    AppendedErases(log, c, polls);
    AppendedEnabled(log, c, polls);
    AppendedTiles(erases, from, e);
    assert Commands(erases + [e]) == Commands(erases) + [c];
  }

  /** addr & (blockSize - 1) is zero, for a power of two. */
  predicate Aligned(addr: nat, blockSize: nat)
    requires blockSize > 0
  {
    addr % blockSize == 0
  }

  /** a is not strictly inside a block that lies in the range as a whole. */
  ghost predicate BetweenBlocks(a: nat, from: nat, goal: nat, size: nat) {
    forall k: nat :: from <= k * size && k * size + size <= goal ==> !(k * size < a < k * size + size)
  }

  lemma AfterBlock(a: nat, from: nat, goal: nat, size: nat)
    requires size > 0 && Aligned(a, size)
    ensures BetweenBlocks(a + size, from, goal, size)
  {
    var m := a / size;
    assert a + size == (m + 1) * size;
    forall k: nat ensures !(k * size < a + size < k * size + size) {
      if k <= m { MulLe(k + 1, m + 1, size); } else { MulLe(m + 1, k, size); }
    }
  }

  lemma AfterSector(a: nat, from: nat, goal: nat, size: nat)
    requires size % 4096 == 0 && size > 0 && from % 4096 == 0 && a % 4096 == 0
    requires BetweenBlocks(a, from, goal, size) && !(Aligned(a, size) && a + size <= goal)
    ensures BetweenBlocks(a + 4096, from, goal, size)
  {
    forall k: nat | from <= k * size && k * size + size <= goal ensures !(k * size < a + 4096 < k * size + size) {
      DivModOf(k, 0, size);
      Sectors(k, size);
      assert k * size < a + 4096 ==> k * size <= a;
    }
  }

  lemma Sectors(k: nat, size: nat)
    requires size % 4096 == 0
    ensures k * size % 4096 == 0
  {
    assert k * size == k * (size / 4096) * 4096;
  }

  lemma LargeBlock(shift: nat)
    requires shift >= 12
    ensures Pow2(shift) % 4096 == 0 && Pow2(shift) >= 4096
  {
    hide Pow2;
    Pow2Add(12, shift - 12);
    SmallestBlock();
  }

  lemma SmallestBlock()
    ensures Pow2(12) == 4096
  {
  }

  /** No block that lies in the range as a whole contains a. */
  ghost predicate WithinNoBlock(a: nat, from: nat, goal: nat, size: nat) {
    forall k: nat :: from <= k * size && k * size + size <= goal ==> !(k * size <= a < k * size + size)
  }

  lemma OutsideBlocks(a: nat, from: nat, goal: nat, size: nat)
    requires size > 0 && BetweenBlocks(a, from, goal, size) && !(Aligned(a, size) && a + size <= goal)
    ensures WithinNoBlock(a, from, goal, size)
  {
    forall k: nat | from <= k * size && k * size + size <= goal ensures !(k * size <= a < k * size + size) {
      DivModOf(k, 0, size);
    }
  }

  /** A block command for a whole block of the range, or a sector command for a sector that no
      such block contains. */
  ghost predicate Suitable(e: Erase, blockCmd: byte, from: nat, goal: nat, size: nat) {
    || e == Erase(blockCmd, e.addr, size)
    || (e == Erase(SECTOR_ERASE, e.addr, 4096) && WithinNoBlock(e.addr, from, goal, size))
  }

  method EraseNext(ssi: Ssi, ghost e: Erase, addr: nat, cmd: byte, ghost before: seq<seq<byte>>,
                   ghost done: seq<seq<byte>>,
                   ghost erases: seq<Erase>, ghost from: nat, ghost limit: nat) returns (ghost now: seq<seq<byte>>)
    requires Idle(ssi) && EventuallyReady(ssi.answer, limit) && addr < 0x100_0000
    requires e.cmd == cmd && e.addr == addr && e.size > 0 && Aligned(addr, e.size)
    requires ssi.log == before + done && Done(done, erases, from, addr)
    modifies ssi
    ensures Idle(ssi) && ssi.log == before + now && Done(now, erases + [e], from, addr + e.size)
  {
    hide Idle, EventuallyReady, Polls, Done, AddressBytes;
    AddressDigits(addr);
    ghost var polls := UserErase(ssi, addr, cmd, limit);
    assert [cmd, addr / 0x1_0000, addr / 0x100 % 0x100, addr % 0x100] == [cmd] + AddressBytes(addr);
    Appended(done, erases, from, e, polls + 1);
    now := done + ([[WRITE_ENABLE], [cmd] + AddressBytes(addr)] + Polls(polls + 1));
    assert ssi.log == before + now;
  }

  ghost predicate AllSuitable(erases: seq<Erase>, blockCmd: byte, from: nat, goal: nat, size: nat) {
    forall e :: e in erases ==> Suitable(e, blockCmd, from, goal, size)
  }

  ghost predicate Reached(a: nat, from: nat, count: nat) {
    a >= from + count ==> a == from + RoundUp(count)
  }

  lemma OneMoreBlock(erases: seq<Erase>, a: nat, blockCmd: byte, from: nat, count: nat, size: nat)
    requires AllSuitable(erases, blockCmd, from, from + count, size)
    requires from % 4096 == 0 && a % 4096 == 0 && size % 4096 == 0 && a + size <= from + count
    ensures AllSuitable(erases + [Erase(blockCmd, a, size)], blockCmd, from, from + count, size)
            && Reached(a + size, from, count)
  {
    hide WithinNoBlock;
  }

  lemma OneMoreSector(erases: seq<Erase>, a: nat, blockCmd: byte, from: nat, count: nat, size: nat)
    requires AllSuitable(erases, blockCmd, from, from + count, size) && size > 0
    requires BetweenBlocks(a, from, from + count, size) && !(Aligned(a, size) && a + size <= from + count)
    requires from % 4096 == 0 && a % 4096 == 0 && from <= a < from + count
    ensures AllSuitable(erases + [Erase(SECTOR_ERASE, a, 4096)], blockCmd, from, from + count, size)
            && Reached(a + 4096, from, count)
  {
    hide WithinNoBlock, BetweenBlocks, Aligned;
    OutsideBlocks(a, from, from + count, size);
  }

  /** How far the erasing has come. */
  ghost predicate ErasedTo(a: nat, done: seq<seq<byte>>, erases: seq<Erase>, blockCmd: byte, from: nat, count: nat,
                           size: nat) {
    && from <= a && a % 4096 == 0 && Reached(a, from, count) && BetweenBlocks(a, from, from + count, size)
    && Done(done, erases, from, a) && AllSuitable(erases, blockCmd, from, from + count, size)
  }

  lemma BlockErased(a: nat, done: seq<seq<byte>>, now: seq<seq<byte>>, erases: seq<Erase>, blockCmd: byte, from: nat,
                    count: nat, size: nat)
    requires ErasedTo(a, done, erases, blockCmd, from, count, size) && from % 4096 == 0 && size % 4096 == 0 && size > 0
    requires Aligned(a, size) && a + size <= from + count
             && Done(now, erases + [Erase(blockCmd, a, size)], from, a + size)
    ensures ErasedTo(a + size, now, erases + [Erase(blockCmd, a, size)], blockCmd, from, count, size)
  {
    hide Done, AllSuitable, Reached, BetweenBlocks, Aligned;
    AfterBlock(a, from, from + count, size);
    OneMoreBlock(erases, a, blockCmd, from, count, size);
  }

  lemma SectorErased(a: nat, done: seq<seq<byte>>, now: seq<seq<byte>>, erases: seq<Erase>, blockCmd: byte,
                     from: nat, count: nat, size: nat)
    requires ErasedTo(a, done, erases, blockCmd, from, count, size) && from % 4096 == 0 && size % 4096 == 0 && size > 0
    requires !(Aligned(a, size) && a + size <= from + count) && a < from + count
    requires Done(now, erases + [Erase(SECTOR_ERASE, a, 4096)], from, a + 4096)
    ensures ErasedTo(a + 4096, now, erases + [Erase(SECTOR_ERASE, a, 4096)], blockCmd, from, count, size)
  {
    hide Done, AllSuitable, Reached, BetweenBlocks, Aligned;
    AfterSector(a, from, from + count, size);
    OneMoreSector(erases, a, blockCmd, from, count, size);
  }

  lemma EraseFacts(a: nat, done: seq<seq<byte>>, erases: seq<Erase>, blockCmd: byte, from: nat, count: nat, size: nat)
    requires ErasedTo(a, done, erases, blockCmd, from, count, size)
    ensures a % 4096 == 0 && Aligned(a, 4096) && Done(done, erases, from, a)
            && AllSuitable(erases, blockCmd, from, from + count, size)
    ensures a >= from + count ==> a == from + RoundUp(count)
  {
  }

  lemma NothingErased(from: nat, count: nat, blockCmd: byte, size: nat)
    requires from % 4096 == 0
    ensures ErasedTo(from, [], [], blockCmd, from, count, size)
  {
  }

  /** The erases the chip carries out are those the loop has meant. */
  lemma MeantIsReceived(done: seq<seq<byte>>, erases: seq<Erase>, blockCmd: byte, from: nat, to: nat, goal: nat,
                        size: nat, sizes: byte -> nat)
    requires Done(done, erases, from, to) && AllSuitable(erases, blockCmd, from, goal, size)
    requires sizes(SECTOR_ERASE) == 4096 && sizes(blockCmd) == size
    ensures Received(done, sizes) == erases
  {
    hide Erases, Enabled, Tiles, WithinNoBlock, AddressBytes;
    forall i | 0 <= i < |erases| ensures Understood(Erases(done)[i], sizes) == erases[i] {
      AddressDigits(erases[i].addr);
      assert erases[i] in erases && Suitable(erases[i], blockCmd, from, goal, size);
    }
  }

  lemma {:induction false} TilesAligned(erases: seq<Erase>, from: nat, to: nat, i: nat)
    requires Tiles(erases, from, to) && i < |erases|
    ensures erases[i].size > 0 && erases[i].addr % erases[i].size == 0
  {
    if i < |erases| - 1 { TilesAligned(erases[..|erases| - 1], from, erases[|erases| - 1].addr, i); }
  }

  /** flash_range_erase, for a block size of 2^shift and a chip whose sector and block commands erase
      that much. The erases the chip carries out cover the range, its end rounded up to a sector,
      each byte once, and no byte outside; each is aligned to its size and comes right after a write
      enable; and a whole block in the range is erased as one. */
  method RangeErase(ssi: Ssi, addr: nat, count: nat, blockSize: nat, blockCmd: byte, ghost shift: nat, ghost limit: nat,
                    ghost sizes: byte -> nat)
    returns (ghost done: seq<seq<byte>>, ghost erases: seq<Erase>)
    requires Idle(ssi) && EventuallyReady(ssi.answer, limit)
    requires addr % 4096 == 0 && addr + count <= 0x100_0000 && shift >= 12 && blockSize == Pow2(shift)
    requires sizes(0x20) == 4096 && sizes(blockCmd) == blockSize
    modifies ssi
    ensures Idle(ssi) && ssi.log == old(ssi.log) + done && erases == Received(done, sizes)
    ensures forall a: nat :: Covered(erases, a) <==> addr <= a < addr + (count + 4095) / 4096 * 4096
    ensures forall i, j, a: nat :: 0 <= i < j < |erases| && Covers(erases[i], a) ==> !Covers(erases[j], a)
    ensures forall i :: 0 <= i < |erases| ==> erases[i].size > 0 && erases[i].addr % erases[i].size == 0
    ensures forall i :: 0 <= i < |done| && |done[i]| == 4 ==> i > 0 && done[i - 1] == [0x06]
    ensures forall i :: 0 <= i < |erases| ==>
              erases[i].cmd == blockCmd
              || (erases[i].cmd == 0x20
                  && forall k: nat :: addr <= k * blockSize && k * blockSize + blockSize <= addr + count ==>
                       !(k * blockSize <= erases[i].addr < k * blockSize + blockSize))
  {
    hide Done, AllSuitable, Pow2, Idle, EventuallyReady, Received, RoundUp;
    done, erases := EraseAll(ssi, addr, count, blockSize, blockCmd, shift, limit);
    ErasesMean(done, erases, blockCmd, addr, count, blockSize, sizes);
    CommandsSuit(erases, blockCmd, addr, addr + count, blockSize);
  }

  lemma CoveredOnce(erases: seq<Erase>, from: nat, to: nat)
    requires Tiles(erases, from, to)
    ensures forall a: nat :: Covered(erases, a) <==> from <= a < to
    ensures forall i, j, a: nat :: 0 <= i < j < |erases| && Covers(erases[i], a) ==> !Covers(erases[j], a)
  {
    hide Tiles, Covered, Covers;
    forall a: nat ensures Covered(erases, a) <==> from <= a < to {
      TilesOnce(erases, from, to, a);
    }
    forall i, j, a: nat | 0 <= i < j < |erases| && Covers(erases[i], a) ensures !Covers(erases[j], a) {
      TilesOnce(erases, from, to, a);
    }
  }

  lemma ErasesMean(done: seq<seq<byte>>, erases: seq<Erase>, blockCmd: byte, addr: nat, count: nat, size: nat,
                   sizes: byte -> nat)
    requires Done(done, erases, addr, addr + RoundUp(count))
    requires AllSuitable(erases, blockCmd, addr, addr + count, size)
    requires sizes(0x20) == 4096 && sizes(blockCmd) == size
    ensures erases == Received(done, sizes)
    ensures forall a: nat :: Covered(erases, a) <==> addr <= a < addr + (count + 4095) / 4096 * 4096
    ensures forall i, j, a: nat :: 0 <= i < j < |erases| && Covers(erases[i], a) ==> !Covers(erases[j], a)
    ensures forall i :: 0 <= i < |erases| ==> erases[i].size > 0 && erases[i].addr % erases[i].size == 0
    ensures forall i :: 0 <= i < |done| && |done[i]| == 4 ==> i > 0 && done[i - 1] == [0x06]
  {
    hide Tiles, Received, Erases, Commands, Suitable, Covered, Covers;
    var to := addr + RoundUp(count);
    MeantIsReceived(done, erases, blockCmd, addr, to, addr + count, size, sizes);
    CoveredOnce(erases, addr, to);
    hide Enabled;
    forall i | 0 <= i < |erases| ensures erases[i].size > 0 && erases[i].addr % erases[i].size == 0 {
      TilesAligned(erases, addr, to, i);
    }
  }

  lemma CommandsSuit(erases: seq<Erase>, blockCmd: byte, from: nat, goal: nat, size: nat)
    requires AllSuitable(erases, blockCmd, from, goal, size)
    ensures forall i :: 0 <= i < |erases| ==>
              erases[i].cmd == blockCmd
              || (erases[i].cmd == 0x20
                  && forall k: nat :: from <= k * size && k * size + size <= goal ==>
                       !(k * size <= erases[i].addr < k * size + size))
  {
    hide Suitable;
    forall i | 0 <= i < |erases|
      ensures erases[i].cmd == blockCmd
              || (erases[i].cmd == 0x20
                  && forall k: nat :: from <= k * size && k * size + size <= goal ==>
                       !(k * size <= erases[i].addr < k * size + size))
    {
      assert erases[i] in erases;
      SuitableMeans(erases[i], blockCmd, from, goal, size);
    }
  }

  lemma SuitableMeans(e: Erase, blockCmd: byte, from: nat, goal: nat, size: nat)
    requires Suitable(e, blockCmd, from, goal, size)
    ensures e.cmd == blockCmd
            || (e.cmd == 0x20
                && forall k: nat :: from <= k * size && k * size + size <= goal ==>
                     !(k * size <= e.addr < k * size + size))
  {
  }

  /** The loop of flash_range_erase. */
  method EraseAll(ssi: Ssi, addr: nat, count: nat, blockSize: nat, blockCmd: byte, ghost shift: nat, ghost limit: nat)
    returns (ghost done: seq<seq<byte>>, ghost erases: seq<Erase>)
    requires Idle(ssi) && EventuallyReady(ssi.answer, limit)
    requires addr % 4096 == 0 && addr + count <= 0x100_0000 && shift >= 12 && blockSize == Pow2(shift)
    modifies ssi
    ensures Idle(ssi) && ssi.log == old(ssi.log) + done
    ensures Done(done, erases, addr, addr + RoundUp(count))
    ensures AllSuitable(erases, blockCmd, addr, addr + count, blockSize)
  {
    hide Idle, EventuallyReady, Done, AllSuitable, ErasedTo, Pow2, RoundUp, Aligned;
    LargeBlock(shift);
    var a, goal := addr, addr + count;
    erases, done := [], [];
    NothingErased(addr, count, blockCmd, blockSize);
    while a < goal
      invariant Idle(ssi) && ssi.log == old(ssi.log) + done
                && ErasedTo(a, done, erases, blockCmd, addr, count, blockSize)
      decreases goal - a
    {
      EraseFacts(a, done, erases, blockCmd, addr, count, blockSize);
      ghost var was := done;
      if Aligned(a, blockSize) && goal - a >= blockSize {
        done := EraseNext(ssi, Erase(blockCmd, a, blockSize), a, blockCmd, old(ssi.log), was, erases, addr, limit);
        BlockErased(a, was, done, erases, blockCmd, addr, count, blockSize);
        erases := erases + [Erase(blockCmd, a, blockSize)];
        a := a + blockSize;
      } else {
        done := EraseNext(ssi, Erase(SECTOR_ERASE, a, 4096), a, SECTOR_ERASE, old(ssi.log), was, erases, addr, limit);
        SectorErased(a, was, done, erases, blockCmd, addr, count, blockSize);
        erases := erases + [Erase(SECTOR_ERASE, a, 4096)];
        a := a + 4096;
      }
    }
    EraseFacts(a, done, erases, blockCmd, addr, count, blockSize);
  }
}
