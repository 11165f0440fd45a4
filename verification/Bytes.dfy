/** Machine-level vocabulary shared by every component. */
module Bytes {
  newtype byte = x: int | 0 <= x < 256

  const SIZE_MAX: int := 0xFFFF_FFFF_FFFF_FFFF
  const INT_MAX: int := 0x7FFF_FFFF

  /** std::size_t on a 64-bit target. Every subtraction stored in a SizeT is thereby proved not to wrap. */
  type SizeT = x: int | 0 <= x <= SIZE_MAX

  datatype Option<+T> = None | Some(value: T)

  /** std::char_traits<char>::int_type. */
  datatype IntType = EOF | Char(c: byte)

  function Min(a: int, b: int): int { if a <= b then a else b }

  function Max(a: int, b: int): int { if a <= b then b else a }

  /** static_cast<int>(n) for a std::size_t n: two's complement truncation to 32 bits. */
  function CastToInt(n: SizeT): int {
    var low := n % 0x1_0000_0000;
    if low <= INT_MAX then low else low - 0x1_0000_0000
  }

  /** It is an int, and differs from the count by a multiple of 2^32. */
  lemma {:induction false} CastToIntWraps(n: SizeT)
    ensures -INT_MAX - 1 <= CastToInt(n) <= INT_MAX
    ensures CastToInt(n) == n - (n + 0x8000_0000) / 0x1_0000_0000 * 0x1_0000_0000
  {}

  /** The cast keeps the count exactly when it is an int already. */
  lemma {:induction false} CastToIntExact(n: SizeT)
    ensures CastToInt(n) == n <==> n <= INT_MAX
  {
    if n <= INT_MAX {
      assert n % 0x1_0000_0000 == n;
    }
  }

  /** address + count on a flat address space of std::size_t. */
  function AddressAfter(address: SizeT, count: SizeT): SizeT { (address + count) % (SIZE_MAX + 1) }

  lemma {:induction false} AddressAfterWraps(address: SizeT, count: SizeT)
    ensures AddressAfter(address, count) ==
            if address + count <= SIZE_MAX then address + count else address + count - SIZE_MAX - 1
  {}

  /** Concatenation of the chunks, in order. */
  function Flatten<T>(chunks: seq<seq<T>>): seq<T> {
    if chunks == [] then [] else chunks[0] + Flatten(chunks[1..])
  }

  lemma {:induction false} Assoc<T>(a: seq<T>, b: seq<T>, c: seq<T>)
    ensures (a + b) + c == a + (b + c)
  {}

  lemma {:induction false} FlattenAppend<T>(a: seq<seq<T>>, b: seq<seq<T>>)
    ensures Flatten(a + b) == Flatten(a) + Flatten(b)
  {
    if a == [] {
      assert a + b == b;
    } else {
      FlattenAppend(a[1..], b);
      assert (a + b)[1..] == a[1..] + b;
      Assoc(a[0], Flatten(a[1..]), Flatten(b));
    }
  }
}
