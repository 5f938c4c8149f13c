/** Byte-filling of raw memory and the zeroing of the BSS region at the start
    of `kernel_main`. Memory is one byte array; an address is an index into
    it, and the linker's BSS bounds are plain parameters. */
module Memory {

  /** Memory `m` after the `len` bytes starting at `start` are set to `value`. */
  function Filled(m: seq<bv8>, start: nat, len: nat, value: bv8): (r: seq<bv8>)
    requires start + len <= |m|
    ensures |r| == |m|
    ensures forall a :: start <= a < start + len ==> r[a] == value
    ensures forall a :: 0 <= a < |m| && !(start <= a < start + len) ==> r[a] == m[a]
  {
    m[..start] + seq(len, _ => value) + m[start + len..]
  }

  /** `memset`: stores `value` at `buf`, `buf + 1`, ..., `buf + len - 1`. */
  method Memset(mem: array<bv8>, buf: nat, value: bv8, len: nat)
    requires buf + len <= mem.Length
    modifies mem
    ensures mem[..] == Filled(old(mem[..]), buf, len, value)
  {
    var i := 0;
    while i < len
      invariant 0 <= i <= len
      invariant forall a :: buf <= a < buf + i ==> mem[a] == value
      invariant forall a :: 0 <= a < mem.Length && !(buf <= a < buf + i) ==> mem[a] == old(mem[a])
    {
      mem[buf + i] := value;
      i := i + 1;
    }
  }

  /** The BSS-zeroing block of `kernel_main`: `memset(bss, 0, bss_end - bss)`.
      Every byte of `[bss, bssEnd)` is zero afterwards and no other byte
      changes. */
  method ZeroBss(mem: array<bv8>, bss: nat, bssEnd: nat)
    requires bss <= bssEnd <= mem.Length
    modifies mem
    ensures forall a :: bss <= a < bssEnd ==> mem[a] == 0
    ensures forall a :: 0 <= a < mem.Length && !(bss <= a < bssEnd) ==> mem[a] == old(mem[a])
  {
    var len := bssEnd - bss;
    Memset(mem, bss, 0, len);
  }
}
