/** The decoded shares the program works on. */
module Points {

  /** A share: `x` is the Java `int` key, `y` the Java `long` decoded from its
      base-encoded value. Both are held as unbounded integers; where their
      width matters it is written out (`JavaInt`). */
  datatype Point = Point(x: int, y: int)
}
