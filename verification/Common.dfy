/** Definitions shared by all parts. */
module Common {
  datatype Option<+T> = None | Some(value: T)

  /** 256 to the power `j`, for the bytes of a word. */
  function Pow256(j: nat): nat
    requires j <= 8
  {
    if j == 0 then 1
    else if j == 1 then 0x100
    else if j == 2 then 0x1_0000
    else if j == 3 then 0x100_0000
    else if j == 4 then 0x1_0000_0000
    else if j == 5 then 0x100_0000_0000
    else if j == 6 then 0x1_0000_0000_0000
    else if j == 7 then 0x100_0000_0000_0000
    else 0x1_0000_0000_0000_0000
  }
}
