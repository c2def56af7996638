/** A window of guest memory with 64-bit addresses. */
module GuestMemory {
  import opened Bytes

  type U64 = n: nat | n < TWO64 witness 0

  /** static_cast<uint64_t>, and every 64-bit sum and difference. */
  function Wrap(x: int): U64 { x % TWO64 }

  /** `bytes[k]` is the byte at address origin + k. */
  datatype Memory = Memory(origin: U64, bytes: seq<byte>)

  function IndexOf(mem: Memory, addr: int): U64 { Wrap(addr - mem.origin) }

  /** The `n` bytes from `addr` lie in the window. */
  predicate Inside(mem: Memory, addr: int, n: nat) { IndexOf(mem, addr) + n <= |mem.bytes| }

  /** What a read finds; zeros outside the window. */
  function Peek(mem: Memory, addr: int, n: nat): (r: seq<byte>)
    ensures |r| == n
  {
    if Inside(mem, addr, n) then Load(mem.bytes, IndexOf(mem, addr), n) else seq(n, _ => 0)
  }

  function PeekNumber(mem: Memory, addr: int, n: nat): (v: nat)
    ensures v < Pow256(n)
  {
    FromLE(Peek(mem, addr, n))
  }

  function Peek64(mem: Memory, addr: int): U64 {
    Pow256Values();
    PeekNumber(mem, addr, 8)
  }

  /** What a 64-bit write leaves; nothing changes outside the window. */
  function Poke64(mem: Memory, addr: int, v: U64): (r: Memory)
    ensures r.origin == mem.origin && |r.bytes| == |mem.bytes|
  {
    if Inside(mem, addr, 8) then mem.(bytes := Store(mem.bytes, IndexOf(mem, addr), LE(v, 8))) else mem
  }

  /** The bytes from `addr` to the first NUL, or to the end of the window. */
  function CString(mem: Memory, addr: int): seq<byte> {
    var at := IndexOf(mem, addr);
    if at > |mem.bytes| then [] else UpToNul(mem.bytes[at..])
  }

  function UpToNul(s: seq<byte>): seq<byte> {
    if s == [] || s[0] == 0 then [] else [s[0]] + UpToNul(s[1..])
  }

  /** The window as the loader changes it. */
  class Guest {
    const origin: U64
    const bytes: array<byte>

    constructor (origin': U64, contents: seq<byte>)
      ensures fresh(bytes) && Mem() == Memory(origin', contents)
    {
      origin := origin';
      bytes := new byte[|contents|](i requires 0 <= i < |contents| => contents[i]);
      new;
      assert bytes[..] == contents;
    }

    function Mem(): Memory
      reads bytes
    {
      Memory(origin, bytes[..])
    }

    method WriteU64(addr: U64, v: U64)
      modifies bytes
      ensures Mem() == Poke64(old(Mem()), addr, v)
    {
      hide LE;
      var at := Wrap(addr - origin);
      if at + 8 <= bytes.Length {
        Put(bytes, at, LE(v, 8));
      }
    }

    /** memcpy or memset into the window. */
    method WriteBytes(addr: U64, bs: seq<byte>)
      requires Inside(Mem(), addr, |bs|)
      modifies bytes
      ensures Mem() == old(Mem()).(bytes := Store(old(bytes[..]), IndexOf(old(Mem()), addr), bs))
    {
      Put(bytes, Wrap(addr - origin), bs);
    }
  }
}
