/**
 * The buffered binary stream a socket's `makefile("rb")` gives: every byte
 * the peer sends, read from a position that only moves forward.
 */
module Stream {
  import opened Wrappers
  import opened Bytes

  /**
   * Where the line that starts at `pos` ends (exclusively): just past the
   * first LF at or after `pos`, or the end of the data when there is none.
   */
  function LineEnd(data: seq<byte>, pos: nat): (e: nat)
    requires pos <= |data|
    ensures pos <= e <= |data|
    ensures e == pos <==> pos == |data|
    decreases |data| - pos
  {
    if pos == |data| then pos
    else if data[pos] == LF then pos + 1
    else LineEnd(data, pos + 1)
  }

  /** A line holds no LF before its last byte, and ends with LF unless it runs to the end of the data. */
  lemma {:induction false} LineEndShape(data: seq<byte>, pos: nat)
    requires pos <= |data|
    ensures forall k :: pos <= k < LineEnd(data, pos) - 1 ==> data[k] != LF
    ensures LineEnd(data, pos) > pos ==>
      data[LineEnd(data, pos) - 1] == LF || (LineEnd(data, pos) == |data| && LF !in data[pos..])
    decreases |data| - pos
  {
    if pos < |data| && data[pos] != LF {
      LineEndShape(data, pos + 1);
      assert data[pos..] == [data[pos]] + data[pos + 1..];
    }
  }

  /** A line of bytes without LF, followed by LF, ends just past that LF. */
  lemma {:induction false} LineEndAt(data: seq<byte>, pos: nat, len: nat)
    requires pos + len < |data|
    requires forall k :: pos <= k < pos + len ==> data[k] != LF
    requires data[pos + len] == LF
    ensures LineEnd(data, pos) == pos + len + 1
    decreases len
  {
    if len > 0 {
      LineEndAt(data, pos + 1, len - 1);
    }
  }

  /**
   * Where `read(n)` from `pos` stops: the end for `n == -1`, else `n` bytes
   * on, or the end of the data when fewer are left.
   */
  function ReadEnd(data: seq<byte>, pos: nat, n: int): (e: nat)
    requires pos <= |data| && n >= -1
    ensures pos <= e <= |data|
    ensures n == -1 ==> e == |data|
    ensures n >= 0 ==> e == pos + n || (e == |data| && |data| < pos + n)
  {
    if n == -1 || pos + n > |data| then |data| else pos + n
  }

  /** The stream: the bytes received and how far they have been read. */
  class Reader {
    const data: seq<byte>
    var pos: nat

    ghost predicate Valid()
      reads this
    {
      pos <= |data|
    }

    constructor (data: seq<byte>)
      ensures Valid()
      ensures this.data == data && pos == 0
    {
      this.data := data;
      pos := 0;
    }

    /** `readline()`: the bytes up to and including the next LF; empty at the end. */
    method ReadLine() returns (line: seq<byte>)
      requires Valid()
      modifies this
      ensures Valid()
      ensures pos == LineEnd(data, old(pos))
      ensures line == data[old(pos)..pos]
    {
      var i := pos;
      while i < |data| && data[i] != LF
        invariant pos <= i <= |data|
        invariant LineEnd(data, pos) == LineEnd(data, i)
        decreases |data| - i
      {
        i := i + 1;
      }
      if i < |data| {
        i := i + 1;
      }
      line := data[pos..i];
      pos := i;
    }

    /**
     * `read(n)`: `n` bytes, fewer at the end, everything left for `-1`; any
     * other negative length is refused (`None`) and reads nothing.
     */
    method Read(n: int) returns (r: Option<seq<byte>>)
      requires Valid()
      modifies this
      ensures Valid()
      ensures n < -1 ==> r.None? && pos == old(pos)
      ensures n >= -1 ==> pos == ReadEnd(data, old(pos), n) && r == Some(data[old(pos)..pos])
    {
      if n < -1 {
        return None;
      }
      var e := if n == -1 || pos + n > |data| then |data| else pos + n;
      r := Some(data[pos..e]);
      pos := e;
    }
  }
}
