/** The output file the writers fill, as a byte buffer with a position:
    `fwrite` overwrites from the position on and moves it past what it wrote,
    `ftell` reads the position and `fseek` sets it. */
module Sink {
  import opened Bits

  /** `s` with `t` written from position `at` on. Writing past the end extends
      the file, and a gap left by seeking beyond the end reads as zero bytes. */
  function Overwrite(s: seq<byte>, at: nat, t: seq<byte>): (r: seq<byte>)
    ensures |r| == if at + |t| > |s| then at + |t| else |s|
    ensures forall k :: 0 <= k < |r| ==>
      r[k] == if at <= k < at + |t| then t[k - at] else if k < |s| then s[k] else 0
  {
    var front := if at <= |s| then s[..at] else s + Zeros(at - |s|);
    var back := if at + |t| <= |s| then s[at + |t|..] else [];
    front + t + back
  }

  /** Writing at the end of the file appends. */
  lemma {:induction false} OverwriteAtEnd(s: seq<byte>, t: seq<byte>)
    ensures Overwrite(s, |s|, t) == s + t
  {
    assert forall k :: 0 <= k < |s| + |t| ==> Overwrite(s, |s|, t)[k] == (s + t)[k];
  }

  /** Writing over a field of the file replaces that field and nothing else. */
  lemma {:induction false} OverwriteField(a: seq<byte>, field: seq<byte>, b: seq<byte>, t: seq<byte>)
    requires |t| == |field|
    ensures Overwrite(a + field + b, |a|, t) == a + t + b
  {
    var s := a + field + b;
    assert forall k :: 0 <= k < |s| ==> Overwrite(s, |a|, t)[k] == (a + t + b)[k];
  }

  class FileBuffer {
    var bytes: seq<byte>
    var cursor: nat

    /** A file opened with mode `wb`: empty, positioned at its start. */
    constructor ()
      ensures bytes == [] && cursor == 0
    {
      bytes := [];
      cursor := 0;
    }

    /** The position is at the end of the file, where writes append. */
    predicate AtEnd()
      reads this
    {
      cursor == |bytes|
    }

    /** `fwrite`. */
    method Write(s: seq<byte>)
      modifies this
      ensures bytes == Overwrite(old(bytes), old(cursor), s)
      ensures cursor == old(cursor) + |s|
    {
      bytes := Overwrite(bytes, cursor, s);
      cursor := cursor + |s|;
    }

    /** `fwrite` at the end of the file. */
    method Append(s: seq<byte>)
      requires AtEnd()
      modifies this
      ensures bytes == old(bytes) + s && AtEnd()
    {
      OverwriteAtEnd(bytes, s);
      Write(s);
    }

    /** `ftell`. */
    method Tell() returns (pos: nat)
      ensures pos == cursor
    {
      pos := cursor;
    }

    /** `fseek` from the start of the file. */
    method Seek(pos: nat)
      modifies this
      ensures cursor == pos && bytes == old(bytes)
    {
      cursor := pos;
    }
  }
}
