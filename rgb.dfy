/** AWT colours: red, green and blue channels, each 0 to 255. */
module Rgb {
  datatype Color = Color(red: int, green: int, blue: int)

  predicate Valid(c: Color) {
    0 <= c.red < 256 && 0 <= c.green < 256 && 0 <= c.blue < 256
  }

  const White := Color(255, 255, 255)
  const Black := Color(0, 0, 0)
}
