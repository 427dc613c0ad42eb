/** The C library glue (bsp_Io_gcc.c): a table of three devices, one per
    standard stream (stdout, stderr, stdin, in that order), each with a
    cookie and optional handlers. The newlib system calls find the entry
    for a path or a file descriptor and delegate to its handler with the
    stored cookie, or fail with -1. The handlers themselves are outside
    the model: a call to one is returned as a Delegate outcome. */
module StdIo {
  import opened Bytes
  import R = Reset

  const IDX_STDOUT: nat := 0
  const IDX_STDERR: nat := 1
  const IDX_STDIN: nat := 2
  const IDX_NUM: nat := 3

  /** newlib's fileno(stdin), fileno(stdout), fileno(stderr). */
  const FD_STDIN: int := 0
  const FD_STDOUT: int := 1
  const FD_STDERR: int := 2

  datatype Op = Open | Close | Read | Write | Lseek | Unlink | Rename

  /** bsp_Io_devInfo_t: the cookie and the handlers that are not NULL. */
  datatype Dev = Dev(cookie: int, ops: set<Op>)

  /** What a system call does: run a device handler on the entry's
      cookie, or return -1. */
  datatype Outcome = Delegate(op: Op, idx: nat, cookie: int) | Fail

  /** The table and the platform's stream paths (BSP_PLATFORM_IO_MAP_*). */
  datatype Io = Io(devs: seq<Dev>, paths: seq<string>)

  predicate Valid(io: Io) { |io.devs| == IDX_NUM && |io.paths| == IDX_NUM }

  /** bsp_Io_init: every entry zeroed. */
  function Init(paths: seq<string>): (io: Io)
    requires |paths| == IDX_NUM
    ensures Valid(io) && io.paths == paths
    ensures forall i :: 0 <= i < IDX_NUM ==> io.devs[i] == Dev(0, {})
  {
    Io(seq(IDX_NUM, _ => Dev(0, {})), paths)
  }

  /** bsp_Io_devPathToIdx: the first stream whose path equals `path`, or
      IDX_NUM when none does. */
  function PathToIdx(paths: seq<string>, path: string): (r: nat)
    requires |paths| == IDX_NUM
    ensures r <= IDX_NUM
    ensures r < IDX_NUM ==> paths[r] == path
    ensures forall i :: 0 <= i < r ==> paths[i] != path
  {
    if paths[0] == path then 0 else if paths[1] == path then 1 else if paths[2] == path then 2 else 3
  }

  /** bsp_Io_fdToIdx. */
  function FdToIdx(fd: int): (r: nat)
    ensures r <= IDX_NUM
    ensures r == IDX_STDOUT <==> fd == FD_STDOUT
    ensures r == IDX_STDERR <==> fd == FD_STDERR
    ensures r == IDX_STDIN <==> fd == FD_STDIN
  {
    if fd == FD_STDOUT then IDX_STDOUT
    else if fd == FD_STDERR then IDX_STDERR
    else if fd == FD_STDIN then IDX_STDIN
    else IDX_NUM
  }

  /** The common shape of the calls: a valid index whose handler is set
      delegates, anything else fails. */
  function Dispatch(io: Io, idx: nat, op: Op): (r: Outcome)
    requires Valid(io)
    ensures r.Delegate? <==> idx < IDX_NUM && op in io.devs[idx].ops
    ensures r.Delegate? ==> r == Delegate(op, idx, io.devs[idx].cookie)
  {
    if idx < IDX_NUM && op in io.devs[idx].ops then Delegate(op, idx, io.devs[idx].cookie) else Fail
  }

  /** _open_r finds the entry by path (its handler gets the path, not the
      cookie). */
  function OpenR(io: Io, path: string): (r: Outcome)
    requires Valid(io)
    ensures r.Delegate? <==> PathToIdx(io.paths, path) < IDX_NUM && Open in io.devs[PathToIdx(io.paths, path)].ops
  {
    Dispatch(io, PathToIdx(io.paths, path), Open)
  }

  /** _close_r, _read_r, _write_r and _lseek_r find the entry by fd. */
  function FdCall(io: Io, fd: int, op: Op): (r: Outcome)
    requires Valid(io) && op in {Close, Read, Write, Lseek}
    ensures r.Delegate? ==> fd in {FD_STDIN, FD_STDOUT, FD_STDERR} && r.cookie == io.devs[FdToIdx(fd)].cookie
    ensures !(fd in {FD_STDIN, FD_STDOUT, FD_STDERR}) ==> r == Fail
  {
    Dispatch(io, FdToIdx(fd), op)
  }

  /** bsp_Io_addDevice: the device is mapped into every stream whose path
      equals its path, and no other. */
  function AddDevice(io: Io, path: string, dev: Dev): (r: Io)
    requires Valid(io)
    ensures Valid(r) && r.paths == io.paths
    ensures forall i :: 0 <= i < IDX_NUM ==> r.devs[i] == if io.paths[i] == path then dev else io.devs[i]
  {
    io.(devs := seq(IDX_NUM, i requires 0 <= i < IDX_NUM => if io.paths[i] == path then dev else io.devs[i]))
  }

  /** bsp_Io_fileToDfd: the stream's cookie, 0 for any other file. */
  function FileToDfd(io: Io, fd: int): (r: int)
    requires Valid(io)
    ensures FdToIdx(fd) < IDX_NUM ==> r == io.devs[FdToIdx(fd)].cookie
    ensures FdToIdx(fd) == IDX_NUM ==> r == 0
  {
    var idx := FdToIdx(fd);
    if idx < IDX_NUM then io.devs[idx].cookie else 0
  }

  /** A device added for stdout's path receives printf's writes with its
      own cookie, while a stream with another path keeps its old device. */
  lemma AddedDeviceReceivesWrites(io: Io, dev: Dev, fd: int)
    requires Valid(io) && Write in dev.ops && fd in {FD_STDIN, FD_STDOUT, FD_STDERR}
    ensures var r := AddDevice(io, io.paths[FdToIdx(fd)], dev);
            FdCall(r, fd, Write) == Delegate(Write, FdToIdx(fd), dev.cookie) && FileToDfd(r, fd) == dev.cookie
    ensures forall p :: io.paths[FdToIdx(fd)] != p ==> FdCall(AddDevice(io, p, dev), fd, Write) == FdCall(io, fd, Write)
  {
  }

  /** Opening a stream's path reaches the device added for that path. */
  lemma OpenReachesAddedDevice(io: Io, path: string, dev: Dev)
    requires Valid(io) && Open in dev.ops && path in io.paths
    ensures var r := AddDevice(io, path, dev);
            OpenR(r, path) == Delegate(Open, PathToIdx(io.paths, path), dev.cookie)
  {
  }

  /** Before any device is added every call fails and every cookie is 0. */
  lemma InitFailsEverything(paths: seq<string>, path: string, fd: int, op: Op)
    requires |paths| == IDX_NUM && op in {Close, Read, Write, Lseek}
    ensures OpenR(Init(paths), path) == Fail && FdCall(Init(paths), fd, op) == Fail
    ensures FileToDfd(Init(paths), fd) == 0
  {
  }

  /** exit(): a software reset with reason EXIT. */
  function Exit(s: R.State): (r: R.State)
    ensures r.swReason == R.SW_EXIT && r.(swReason := s.swReason) == s
  {
    R.SystemReset(s, R.SW_EXIT)
  }

  /** _sbrk_r as written. Its static heap pointer is 0 until the first
      call, which starts it at the heap start; every call adds incr (32-bit
      pointer arithmetic) and returns the NEW end. The result is the new
      pointer and the value returned to the C library. */
  function SbrkAsWritten(heapPtr: u32, heapStart: u32, incr: int): (r: (u32, u32))
    ensures r.0 == r.1
    ensures r.1 == ((if heapPtr == 0 then heapStart else heapPtr) + incr) % 0x1_0000_0000
  {
    var p := ((if heapPtr == 0 then heapStart else heapPtr) + incr) % 0x1_0000_0000;
    (p, p)
  }

  /** _sbrk_r as the C library uses it: the pointer moves the same way, but
      the call returns the OLD end, the start of the block it reserved. */
  function Sbrk(heapPtr: u32, heapStart: u32, incr: int): (r: (u32, u32))
    ensures r.1 == (if heapPtr == 0 then heapStart else heapPtr)
    ensures r.0 == (r.1 + incr) % 0x1_0000_0000
  {
    var old_ := if heapPtr == 0 then heapStart else heapPtr;
    ((old_ + incr) % 0x1_0000_0000, old_)
  }

  /** As written, the block the first allocation is handed starts where
      the reserved heap ends: with the heap at 0x2000_0000, a 16-byte
      request gets 0x2000_0010, and all 16 bytes lie past the new end. */
  lemma SbrkAsWrittenPastEnd()
    ensures SbrkAsWritten(0, 0x2000_0000, 16) == (0x2000_0010, 0x2000_0010)
    ensures Sbrk(0, 0x2000_0000, 16) == (0x2000_0010, 0x2000_0000)
  {
  }

  /** The corrected call hands out each block inside the heap it reserves,
      and two calls in a row hand out adjacent, non-overlapping blocks. */
  lemma SbrkBlocksAdjacent(heapPtr: u32, heapStart: u32, i1: nat, i2: nat)
    requires (if heapPtr == 0 then heapStart else heapPtr) + i1 + i2 < 0x1_0000_0000
    ensures var (p1, b1) := Sbrk(heapPtr, heapStart, i1);
            var (p2, b2) := Sbrk(p1, heapStart, i2);
            && b1 + i1 == p1 && b2 + i2 == p2
            && (p1 != 0 ==> b2 == b1 + i1)
  {
  }

  /** A run of calls starting from an unset pointer. */
  function Sbrks(heapPtr: u32, heapStart: u32, incrs: seq<int>): u32
    decreases |incrs|
  {
    if incrs == [] then heapPtr
    else Sbrks(Sbrk(heapPtr, heapStart, incrs[0]).0, heapStart, incrs[1..])
  }

  function Sum(xs: seq<int>): int {
    if xs == [] then 0 else xs[0] + Sum(xs[1..])
  }

  /** As long as the pointer never comes back to 0 between calls, the heap
      end after one or more calls from the unset state is the heap start plus
      the sum of the increments. */
  lemma SbrksSum(heapStart: u32, incrs: seq<int>)
    requires heapStart != 0 && incrs != []
    requires forall k :: 0 < k < |incrs| ==> (heapStart + Sum(incrs[..k])) % 0x1_0000_0000 != 0
    ensures Sbrks(0, heapStart, incrs) == (heapStart + Sum(incrs)) % 0x1_0000_0000
  {
    var p := Sbrk(0, heapStart, incrs[0]).0;
    assert p == Sbrk(heapStart, heapStart, incrs[0]).0;
    SbrksFrom(heapStart, heapStart, incrs);
  }

  lemma ModAdd(x: int, y: int)
    ensures (x % 0x1_0000_0000 + y) % 0x1_0000_0000 == (x + y) % 0x1_0000_0000
  {
    var m := 0x1_0000_0000;
    var q := x / m;
    assert x % m + y == (x + y) - q * m;
  }

  lemma {:induction false} SbrksFrom(heapPtr: u32, heapStart: u32, incrs: seq<int>)
    requires heapPtr != 0
    requires forall k :: 0 < k < |incrs| ==> (heapPtr + Sum(incrs[..k])) % 0x1_0000_0000 != 0
    ensures Sbrks(heapPtr, heapStart, incrs) == (heapPtr + Sum(incrs)) % 0x1_0000_0000
    decreases |incrs|
  {
    if incrs != [] {
      var p := Sbrk(heapPtr, heapStart, incrs[0]).0;
      assert p == (heapPtr + incrs[0]) % 0x1_0000_0000;
      if |incrs| == 1 {
        assert incrs[1..] == [];
      } else {
        assert incrs[..1] == [incrs[0]];
        assert Sum(incrs[..1]) == incrs[0] + Sum([]);
        forall k | 0 < k < |incrs[1..]|
          ensures (p + Sum(incrs[1..][..k])) % 0x1_0000_0000 != 0
        {
          assert incrs[..k + 1] == [incrs[0]] + incrs[1..][..k];
          assert Sum(incrs[..k + 1]) == incrs[0] + Sum(incrs[1..][..k]);
          ModAdd(heapPtr + incrs[0], Sum(incrs[1..][..k]));
        }
        SbrksFrom(p, heapStart, incrs[1..]);
        ModAdd(heapPtr + incrs[0], Sum(incrs[1..]));
      }
    }
  }
}
