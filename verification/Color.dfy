/** Colours shared by the graphics code. */
module Colors {
  import opened Storage

  datatype Color = Color(red: byte, green: byte, blue: byte, alpha: byte)

  /** An opaque colour. */
  function Opaque(red: byte, green: byte, blue: byte): Color { Color(red, green, blue, 255) }
}
