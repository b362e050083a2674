// Machine words of the bootloader and the kernel, as ranges of the integers.
// Wrap-around is always written out by the modules that use these types.
module Words {
  type byte = x: int | 0 <= x < 0x100
  type u16 = x: int | 0 <= x < 0x1_0000
  type u32 = x: int | 0 <= x < 0x1_0000_0000
  type u64 = x: int | 0 <= x < 0x1_0000_0000_0000_0000

  datatype Option<+T> = None | Some(value: T)

  // The value a 16-bit int takes when a wider integer is converted to it.
  function Int16(x: int): int {
    var low := x % 0x1_0000;
    if low < 0x8000 then low else low - 0x1_0000
  }

  function Least(a: int, b: int): int {
    if a < b then a else b
  }

  // First position of a value at or after a start.
  function Find<T(==)>(s: seq<T>, x: T, start: nat): (p: Option<nat>)
    requires start <= |s|
    ensures p.Some? ==> start <= p.value < |s| && s[p.value] == x
    ensures forall j :: start <= j < (if p.Some? then p.value else |s|) ==> s[j] != x
    decreases |s| - start
  {
    if start == |s| then None else if s[start] == x then Some(start) else Find(s, x, start + 1)
  }
}
