/** Floating-point values as this project reads them: exact reals, and the three that are not finite. */
module Numbers {
  datatype Num = Fin(v: real) | PosInf | NegInf | NaN
}
