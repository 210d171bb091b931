/** A stand-in for the C stretching engine (libpaulstretch). Its algorithm is
    not modelled: the engine is a log of the input windows it was given and a
    queue of output windows it can hand back. */
module Libpaulstretch {
  import opened Audio

  class Engine {
    const stretchFactor: real
    /** Bytes in one window: four per sample. */
    const windowBytes: nat
    /** Every window passed to paulstretch_write, in order. */
    ghost var submitted: seq<seq<Byte>>
    /** Output windows paulstretch_read can return, oldest first. */
    var output: seq<seq<Byte>>

    ghost predicate Valid()
      reads this
    {
      && windowBytes > 0
      && AllSized(output, windowBytes)
    }

    /** paulstretch_create. */
    constructor (stretchFactor: real, windowSize: nat)
      requires windowSize > 0
      ensures Valid()
      ensures this.stretchFactor == stretchFactor && windowBytes == SAMPLE_SIZE * windowSize
      ensures submitted == [] && output == []
    {
      this.stretchFactor := stretchFactor;
      windowBytes := SAMPLE_SIZE * windowSize;
      submitted := [];
      output := [];
    }

    /** paulstretch_write: the engine takes exactly one window. */
    method Write(window: seq<Byte>)
      requires Valid() && |window| == windowBytes
      modifies this
      ensures Valid()
      ensures submitted == old(submitted) + [window] && output == old(output)
    {
      submitted := submitted + [window];
    }

    /** paulstretch_read: the oldest output window, if the engine has one. */
    method Read() returns (available: bool, window: seq<Byte>)
      requires Valid()
      modifies this
      ensures Valid() && submitted == old(submitted)
      ensures available <==> old(output) != []
      ensures available ==> window == old(output)[0] && output == old(output)[1..]
      ensures available ==> |window| == windowBytes
      ensures !available ==> output == old(output)
    {
      available := output != [];
      if available {
        window := output[0];
        output := output[1..];
      } else {
        window := [];
      }
    }

    /** The stretching algorithm making one more output window available; it
        runs inside the engine, so the stream adapter never calls this. */
    method Emit(window: seq<Byte>)
      requires Valid() && |window| == windowBytes
      modifies this
      ensures Valid()
      ensures output == old(output) + [window] && submitted == old(submitted)
    {
      AllSizedAppend(output, window, windowBytes);
      output := output + [window];
    }
  }
}
