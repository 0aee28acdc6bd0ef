/**
  What may be on the wire besides frames: bytes without a flag, and stray flags.
  Both framers, the Python one and the Go one, are held against this traffic.
 */
module Traffic {
  import opened Bytes
  import opened Escaping

  /** A frame with what comes before it: bytes without a flag, then stray flags. */
  datatype Piece = Piece(noise: seq<Byte>, strays: nat, content: seq<Byte>)

  function Strays(n: nat): (s: seq<Byte>)
    ensures |s| == n
    ensures forall i :: 0 <= i < n ==> s[i] == FLAG
  {
    if n == 0 then [] else [FLAG] + Strays(n - 1)
  }

  /** The pieces one behind the other, and `last` behind them. */
  function OnWire(pieces: seq<Piece>, last: seq<Byte>): seq<Byte> {
    if pieces == [] then last
    else pieces[0].noise + Strays(pieces[0].strays) + Enclose(pieces[0].content) + OnWire(pieces[1..], last)
  }

  lemma OnWireStep(pieces: seq<Piece>, last: seq<Byte>)
    requires pieces != []
    ensures OnWire(pieces, last) ==
            pieces[0].noise + Strays(pieces[0].strays) + Enclose(pieces[0].content) + OnWire(pieces[1..], last)
  {}

  /** How many strays there are in all. */
  function Total(pieces: seq<Piece>): nat {
    if pieces == [] then 0 else pieces[0].strays + Total(pieces[1..])
  }

  lemma TotalStep(pieces: seq<Piece>)
    requires pieces != []
    ensures Total(pieces) == pieces[0].strays + Total(pieces[1..])
  {}
}
