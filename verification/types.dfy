/**
 * Basic types shared by the connected-components driver and the labeling
 * cross-check: 32-bit unsigned identifiers, edges, and the abstract result
 * of reading one line of a two-column input table.
 */
module Types {

  /** A 32-bit unsigned integer, as `uint32_t` / `unsigned int` in the source. */
  newtype u32 = x: int | 0 <= x < 0x1_0000_0000

  /** Node identifiers and component labels are both 32-bit values. */
  type Node = u32
  type Label = u32

  /** An undirected edge between two nodes, one row of the edge store. */
  datatype Edge = Edge(u: Node, v: Node)

  datatype Option<+T> = None | Some(value: T)

  /**
   * The outcome of reading one line of a two-column table with the generic
   * table reader: two parsed values, a value out of range (too large or
   * negative), any other parse or read failure, or the end-of-file signal.
   * Running off the end of the sequence of lines is also end of file.
   */
  datatype LineResult =
    | Pair(first: u32, second: u32)
    | Overflow
    | OtherError
    | Eof
}
