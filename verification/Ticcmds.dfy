/** The command a player gives in one tic. */
module Ticcmds {
  import opened Bytes

  type sbyte = x: int | -128 <= x < 128
  type short = x: int | -0x8000 <= x < 0x8000

  datatype Ticcmd = Ticcmd(
    forwardmove: sbyte, sidemove: sbyte, angleturn: short, chatchar: byte, buttons: byte, consistancy: byte)

  const BT_SPECIAL: byte := 128

  /** `buttons & BT_SPECIAL`: the topmost bit. */
  predicate Special(c: Ticcmd) {
    c.buttons >= BT_SPECIAL
  }
}
