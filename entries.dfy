/**
 * An aligned read as the core sees it, through the accessor functions first_pos,
 * last_pos, length, read_group, name, mapping_quality and sam_flag. One datatype
 * stands for both the real alignment record and the mock one of the unit tests.
 */
module Entries {
  import opened Wrappers

  const U32: nat := 0x1_0000_0000

  /** The source's uint32_t. Arithmetic on it is written out modulo U32 where it can wrap. */
  type uint32 = n: int | 0 <= n < U32

  datatype Entry = Entry(
    firstPos: uint32,        // 0-based start of the aligned interval [firstPos, lastPos)
    lastPos: uint32,         // 0-based end, exclusive
    length: uint32,          // read length
    readGroup: Option<string>, // the value of the RG tag, or a null pointer
    name: string,
    mappingQuality: int,
    samFlag: uint32)         // the 16-bit SAM flag word, widened to the int sam_flag returns
}
