/** The network socket as the HTTP layer sees it. */
module HttpSockets {
  import opened HttpText

  /** A line as `readLine` returns it: of any length for a limit of 0, nothing for a negative one. */
  function LineUpTo(s: string, max: int): (line: string)
    ensures |line| <= |s| && line == s[..|line|]
    ensures line == "" <==> s == "" || max < 0
  {
    if max < 0 then "" else ReadLine(s, if max == 0 then |s| + 1 else max)
  }

  function BytesUpTo(s: string, max: int): (data: string)
    ensures |data| <= |s| && data == s[..|data|]
    ensures data == "" <==> s == "" || max <= 0
    ensures max >= 0 ==> |data| <= max
  {
    if max < 0 then "" else if max <= |s| then s[..max] else s
  }

  /**
   The socket of a connection: the bytes that have arrived and are not yet read, the bytes sent, and how many
   bytes the next writes accept, a negative number for one that fails.
   */
  class Socket {
    var available: string
    var sent: string
    var open: bool
    var outcomes: seq<int>

    constructor ()
      ensures available == "" && sent == "" && open && outcomes == []
    {
      available, sent, open, outcomes := "", "", true, [];
    }

    method ReadLine(max: int) returns (line: string)
      modifies this`available
      ensures line == LineUpTo(old(available), max) && available == old(available)[|line|..]
    {
      line := LineUpTo(available, max);
      available := available[|line|..];
    }

    method Read(max: int) returns (data: string)
      modifies this`available
      ensures data == BytesUpTo(old(available), max) && available == old(available)[|data|..]
    {
      data := BytesUpTo(available, max);
      available := available[|data|..];
    }

    /** The handler of the disconnected signal closes the socket, which discards what was not read. */
    method Disconnect()
      modifies this`available, this`open
      ensures available == "" && !open
    {
      available, open := "", false;
    }

    predicate Healthy()
      reads this
    {
      open && forall i :: 0 <= i < |outcomes| ==> outcomes[i] >= 0
    }

    method Write(data: string) returns (written: int)
      modifies this`sent, this`outcomes
      ensures -1 <= written <= |data|
      ensures sent == old(sent) + if written < 0 then "" else data[..written]
      ensures old(Healthy()) ==> Healthy() && written >= 0
      ensures old(outcomes) == [] ==> outcomes == [] && written == |data|
      ensures old(outcomes) != [] ==> outcomes == old(outcomes)[1..]
    {
      written := |data|;
      if outcomes != [] {
        if outcomes[0] < written {
          written := if outcomes[0] < 0 then -1 else outcomes[0];
        }
        outcomes := outcomes[1..];
      }
      if written > 0 {
        sent := sent + data[..written];
      }
    }
  }
}
