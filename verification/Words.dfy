/** Machine words and the few shared datatypes. */
module Words {
  const U32_LIMIT: int := 0x1_0000_0000
  const U64_LIMIT: int := 0x1_0000_0000_0000_0000

  type u32 = x: int | 0 <= x < 0x1_0000_0000
  type u64 = x: int | 0 <= x < 0x1_0000_0000_0000_0000
  type byte = x: int | 0 <= x < 256

  /** The characters of a C string, up to and without its terminator. */
  type CString = s: string | '\0' !in s

  datatype Option<+T> = None | Some(value: T)

  function Min(a: int, b: int): int {
    if a < b then a else b
  }

  function Max(a: int, b: int): int {
    if a < b then b else a
  }

  lemma TimesGrows(a: nat, b: nat, count: nat)
    requires a <= b
    ensures a * count <= b * count
  {
  }
}
