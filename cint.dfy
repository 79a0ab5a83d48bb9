/** The limits of the C++ `int` the program computes with (32 bits on its platforms). */
module CInt {

  /** `INT_MAX`. */
  const IntMax: int := 0x7fff_ffff
}
