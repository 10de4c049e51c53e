/**
 * An output stream (`impl Write`): standard output, standard error, an
 * in-memory buffer or an open file. Everything written is appended.
 */
module Sinks {

  class Sink {
    /** Everything written so far, in order. */
    var data: string

    constructor ()
      ensures data == []
    {
      data := [];
    }

    method Write(s: string)
      modifies this
      ensures data == old(data) + s
    {
      data := data + s;
    }
  }
}
