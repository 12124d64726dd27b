/** The 32-bit machine: word arithmetic, pages, byte memory; and the error number that
    several parts of the kernel return. */
module Machine {

  const WORD := 0x1_0000_0000
  const PAGE_SIZE := 4096
  const ENOMEM := 12

  /** What an unsigned 32-bit variable keeps of x. */
  function Wrap(x: int): nat {
    x % WORD
  }

  type Mem = map<int, int>

  /** The byte at address a. */
  function Byte(mem: Mem, a: int): int {
    if a in mem then mem[a] else 0
  }
}
