/** `Phlex::BlackHole`: the discard sink. It has no state; appending, `dup`
    and `clear` all answer the sink itself, and its length is always 0. */
module PhlexBlackHole {

  class BlackHole {

    constructor ()
    {
    }

    /** `<<`: the argument is dropped. */
    method Append(anything: string) returns (r: BlackHole)
      ensures r == this
    {
      r := this;
    }

    method Length() returns (n: nat)
      ensures n == 0
    {
      n := 0;
    }

    /** `dup` answers the sink itself, not a copy. */
    method Dup() returns (r: BlackHole)
      ensures r == this
    {
      r := this;
    }

    /** `clear` answers the sink itself and changes nothing. */
    method Clear() returns (r: BlackHole)
      ensures r == this
    {
      r := this;
    }
  }

  /** A message sent to a buffer: `<< s`, `dup` or `clear`. */
  datatype Call = Append(s: string) | Dup | Clear

  /** Sends the calls one by one, each to the object the previous one
      answered (a chain such as `sink << a << b`), then asks for `length`:
      the chain never leaves the sink, and the length is 0. */
  method Replay(sink: BlackHole, calls: seq<Call>) returns (last: BlackHole, length: nat)
    ensures last == sink && length == 0
  {
    last := sink;
    var i := 0;
    while i < |calls|
      invariant 0 <= i <= |calls|
      invariant last == sink
    {
      match calls[i] {
        case Append(s) => last := last.Append(s);
        case Dup => last := last.Dup();
        case Clear => last := last.Clear();
      }
      i := i + 1;
    }
    length := last.Length();
  }
}
