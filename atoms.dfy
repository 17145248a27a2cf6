/** The atom records of an extracted subsystem, as the hierarchy's atom
    array holds them. */
module Atoms {
  import opened Wrappers
  import opened Text

  datatype Coord = Coord(x: real, y: real, z: real)

  /** One atom: its numbering column (a fixed-width text field), element
      symbol, atom name, parent residue's name and position. */
  datatype Atom = Atom(serial: string, element: string, name: string, resname: string, coord: Coord)

  /** atom.element.strip() == 'C' */
  predicate IsCarbon(a: Atom) {
    Strip(a.element) == "C"
  }

  /** int(atom.serial.strip()): the serial read from the numbering column,
      None where int() raises ValueError. */
  function ColumnSerial(a: Atom): Option<int> {
    ParseInt(Strip(a.serial))
  }
}
