/** The rows that an operator reads from its child. */
module Streams {
  import opened Basics
  import opened TupleCodec

  /** A child operator: rows in order, from the first one again after `Open`. */
  class Source<T(!new)> {
    const rows: seq<T>
    var position: nat

    ghost predicate Valid()
      reads this
    {
      position <= |rows|
    }

    constructor (rows: seq<T>)
      ensures Valid() && this.rows == rows && position == 0
    {
      this.rows, position := rows, 0;
    }

    method Open()
      modifies this
      ensures Valid() && position == 0
    {
      position := 0;
    }

    method GetNext() returns (row: Option<T>)
      requires Valid()
      modifies this
      ensures Valid()
      ensures if old(position) < |rows| then row == Some(rows[old(position)]) && position == old(position) + 1
              else row == None && position == old(position)
    {
      if position == |rows| {
        return None;
      }
      row := Some(rows[position]);
      position := position + 1;
    }
  }
}
