/** ByteRun1, the run-length scheme of the ILBM BODY chunk: the blocks a
    compressed row is made of, the decoder's reading of a control byte, and the
    blocks the converter's compressor chooses for a row. */
module ByteRun1 {
  import opened Bits
  import opened Wrappers

  /** One block of a compressed row: bytes copied verbatim, or one byte repeated. */
  datatype Block = Literal(data: seq<byte>) | Repeat(count: nat, value: byte)

  /** Blocks a control byte can describe: literal runs of 1..128 bytes and
      repeats of 2..128 copies. */
  predicate Encodable(b: Block)
  {
    match b
    case Literal(d) => 1 <= |d| <= 128
    case Repeat(n, _) => 2 <= n <= 128
  }

  /** Blocks the compressor emits: literal runs of 1..127 bytes and repeats of
      3..127 copies. */
  predicate Emitted(b: Block)
  {
    match b
    case Literal(d) => 1 <= |d| <= 127
    case Repeat(n, _) => 3 <= n <= 127
  }

  /** The control byte in front of a block: `count - 1` for a literal run and
      `257 - count`, the signed byte `-(count - 1)`, for a repeat. */
  function Control(b: Block): byte
  {
    match b
    case Literal(d) => ToByte(|d| - 1)
    case Repeat(n, _) => ToByte(257 - n)
  }

  function BlockBytes(b: Block): seq<byte>
  {
    match b
    case Literal(d) => [Control(b)] + d
    case Repeat(_, v) => [Control(b), v]
  }

  function Serialize(bs: seq<Block>): seq<byte>
  {
    if bs == [] then [] else BlockBytes(bs[0]) + Serialize(bs[1..])
  }

  function Repeated(v: byte, n: nat): (r: seq<byte>)
    ensures |r| == n && forall k :: 0 <= k < n ==> r[k] == v
  {
    if n == 0 then [] else [v] + Repeated(v, n - 1)
  }

  /** The bytes a block stands for. */
  function Expand(b: Block): seq<byte>
  {
    match b
    case Literal(d) => d
    case Repeat(n, v) => Repeated(v, n)
  }

  function ExpandAll(bs: seq<Block>): seq<byte>
  {
    if bs == [] then [] else Expand(bs[0]) + ExpandAll(bs[1..])
  }

  /** What the control byte at the front of `s` stands for, and how many bytes
      of `s` it and its operands take: a control byte `n` in 0..127 copies the
      next `n + 1` bytes, 129..255 repeats the next byte `257 - n` times, and
      128 does nothing. A block cut short by the end of the input is malformed. */
  function Front(s: seq<byte>): (r: Option<(seq<byte>, nat)>)
    requires s != []
    ensures r.Some? ==> 1 <= r.value.1 <= |s|
  {
    if s[0] <= 127 then
      if |s| < 2 + s[0] then None else Some((s[1..2 + s[0]], 2 + s[0]))
    else if s[0] == 128 then Some(([], 1))
    else if |s| < 2 then None
    else Some((Repeated(s[1], 257 - s[0]), 2))
  }

  /** The ByteRun1 decoder: one control byte and its operands after another, to
      the end of the input. */
  function Decode(s: seq<byte>): Option<seq<byte>>
    decreases |s|
  {
    if s == [] then Some([])
    else match Front(s)
      case None => None
      case Some((d, len)) =>
        match Decode(s[len..])
        case None => None
        case Some(rest) => Some(d + rest)
  }

  /** The compressor's first inner loop: the length of the run of bytes equal to
      `row[i]`, grown from `run` and capped at 127. */
  function RunLength(row: seq<byte>, i: nat, run: nat): (r: nat)
    requires 1 <= run <= 127 && i + run <= |row|
    ensures run <= r <= 127 && i + r <= |row|
    ensures r == 127 || i + r == |row| || row[i + r] != row[i]
    decreases |row| - i - run
  {
    if i + run < |row| && row[i] == row[i + run] && run < 127 then RunLength(row, i, run + 1)
    else run
  }

  /** Every byte of the run `RunLength` measures equals its first byte. */
  lemma {:induction false} RunLengthEqual(row: seq<byte>, i: nat, run: nat)
    requires 1 <= run <= 127 && i + run <= |row|
    requires forall k :: i <= k < i + run ==> row[k] == row[i]
    ensures forall k :: i <= k < i + RunLength(row, i, run) ==> row[k] == row[i]
    decreases |row| - i - run
  {
    if i + run < |row| && row[i] == row[i + run] && run < 127 {
      RunLengthEqual(row, i, run + 1);
    }
  }

  /** Whether a literal run that has reached position `j` takes `row[j]` as
      well: it does unless a run of three equal bytes, or an equal pair that
      ends the row, starts at `j`. */
  predicate ExtendsLiteral(row: seq<byte>, j: nat)
    requires j < |row|
  {
    j == |row| - 1 || row[j] != row[j + 1] || (j + 2 < |row| && row[j + 1] != row[j + 2])
  }

  /** The compressor's second inner loop: the length of a literal run starting
      at `i`, grown from `d` and capped at 127. */
  function LiteralLength(row: seq<byte>, i: nat, d: nat): (r: nat)
    requires 1 <= d <= 127 && i + d <= |row|
    ensures d <= r <= 127 && i + r <= |row|
    ensures r == 127 || i + r == |row| || !ExtendsLiteral(row, i + r)
    decreases |row| - i - d
  {
    if i + d < |row| && ExtendsLiteral(row, i + d) && d < 127 then LiteralLength(row, i, d + 1)
    else d
  }

  /** How many bytes of the row a block stands for. */
  function Size(b: Block): nat
  {
    match b
    case Literal(d) => |d|
    case Repeat(n, _) => n
  }

  /** The block the compressor emits with its cursor at `i`: a lone last byte
      as a literal of one, a run of three or more equal bytes as a repeat, and
      anything else as a literal run. It always stands for the bytes at the
      cursor and is one the compressor may emit. */
  function Head(row: seq<byte>, i: nat): (b: Block)
    requires i < |row|
    ensures Emitted(b) && i + Size(b) <= |row|
  {
    if i == |row| - 1 then Literal([row[i]])
    else
      var run := RunLength(row, i, 1);
      if run >= 3 then Repeat(run, row[i])
      else Literal(row[i..i + LiteralLength(row, i, 1)])
  }

  /** The block at the cursor stands for the bytes at the cursor. */
  lemma {:induction false} HeadExpands(row: seq<byte>, i: nat)
    requires i < |row|
    ensures Expand(Head(row, i)) == row[i..i + Size(Head(row, i))]
  {
    if i < |row| - 1 {
      var run := RunLength(row, i, 1);
      if run >= 3 {
        RunLengthEqual(row, i, 1);
        RepeatedRun(row, i, run);
      }
    }
  }

  /** A run of equal bytes is the repeated first byte. */
  lemma {:induction false} RepeatedRun(row: seq<byte>, i: nat, n: nat)
    requires 1 <= n && i + n <= |row|
    requires forall k :: i <= k < i + n ==> row[k] == row[i]
    ensures Repeated(row[i], n) == row[i..i + n]
  {
    assert forall k :: 0 <= k < n ==> Repeated(row[i], n)[k] == row[i..i + n][k];
  }

  /** The blocks the compressor emits for `row[i..]`, one `Head` after another. */
  function Plan(row: seq<byte>, i: nat): seq<Block>
    requires i <= |row|
    decreases |row| - i
  {
    if i == |row| then []
    else
      var b := Head(row, i);
      [b] + Plan(row, i + Size(b))
  }

  /** The compressed form of a whole row. */
  function Compressed(row: seq<byte>): seq<byte>
  {
    Serialize(Plan(row, 0))
  }

  /** One block of a plan, in serialized form, followed by the rest. */
  lemma {:induction false} PlanStep(row: seq<byte>, i: nat, next: nat)
    requires i < |row| && next == i + Size(Head(row, i))
    ensures Serialize(Plan(row, i)) == BlockBytes(Head(row, i)) + Serialize(Plan(row, next))
  {
    PlanUnfold(row, i, next);
    SerializeCons(Head(row, i), Plan(row, next));
  }

  lemma {:induction false} PlanUnfold(row: seq<byte>, i: nat, next: nat)
    requires i < |row| && next == i + Size(Head(row, i))
    ensures Plan(row, i) == [Head(row, i)] + Plan(row, next)
  {
  }

  lemma {:induction false} SerializeCons(b: Block, rest: seq<Block>)
    ensures Serialize([b] + rest) == BlockBytes(b) + Serialize(rest)
  {
    assert ([b] + rest)[1..] == rest;
  }

  /** The compressor's loop invariant: what has been written, followed by the
      plan for the rest of the row, is the compressed row. Writing the block at
      the cursor `i` and moving the cursor to `next`, past it, keeps it. */
  lemma {:induction false} Advance(row: seq<byte>, i: nat, written: seq<byte>, block: seq<byte>, size: nat,
                                   next: nat, output: seq<byte>)
    requires i < |row| && written + Serialize(Plan(row, i)) == Compressed(row)
    requires block == BlockBytes(Head(row, i)) && size == Size(Head(row, i))
    requires next == i + size && output == written + block
    ensures next <= |row| && output + Serialize(Plan(row, next)) == Compressed(row)
  {
    PlanStep(row, i, next);
    AppendAssoc(written, block, Serialize(Plan(row, next)));
  }

  /** A run of three or more equal bytes away from the last byte is written
      as a repeat: `257 - run`, then the byte. */
  lemma {:induction false} RepeatHead(row: seq<byte>, i: nat, run: nat)
    requires i < |row| - 1 && run == RunLength(row, i, 1) && run >= 3
    ensures BlockBytes(Head(row, i)) == [ToByte(257 - run), row[i]] && Size(Head(row, i)) == run
  {
  }

  /** Otherwise, away from the last byte, a literal run is written: its
      length less one, then its bytes. */
  lemma {:induction false} LiteralHead(row: seq<byte>, i: nat, run: nat, d: nat)
    requires i < |row| - 1 && run == RunLength(row, i, 1) && run < 3 && d == LiteralLength(row, i, 1)
    ensures BlockBytes(Head(row, i)) == [ToByte(d - 1)] + row[i..i + d] && Size(Head(row, i)) == d
  {
  }

  // ---------------------------------------------------------------------------
  // Properties of the compressor's blocks

  /** Every block of a plan is one the compressor may emit. */
  lemma {:induction false} PlanEmitted(row: seq<byte>, i: nat)
    requires i <= |row|
    ensures forall k :: 0 <= k < |Plan(row, i)| ==> Emitted(Plan(row, i)[k])
    decreases |row| - i
  {
    if i < |row| {
      PlanEmitted(row, i + Size(Head(row, i)));
    }
  }

  /** The blocks of a plan stand for exactly the rest of the row. */
  lemma {:induction false} PlanExpands(row: seq<byte>, i: nat)
    requires i <= |row|
    ensures ExpandAll(Plan(row, i)) == row[i..]
    decreases |row| - i
  {
    if i < |row| {
      var j := i + Size(Head(row, i));
      HeadExpands(row, i);
      PlanExpands(row, j);
      ConsExpands(Head(row, i), Plan(row, j), row, i, j);
    }
  }

  /** A block standing for `row[i..j]` in front of blocks standing for
      `row[j..]` stands for `row[i..]`. */
  lemma {:induction false} ConsExpands(b: Block, rest: seq<Block>, row: seq<byte>, i: nat, j: nat)
    requires i <= j <= |row|
    requires Expand(b) == row[i..j]
    requires ExpandAll(rest) == row[j..]
    ensures ExpandAll([b] + rest) == row[i..]
  {
    ExpandAllCons(b, rest);
    SliceSplit(row, i, j);
  }

  lemma {:induction false} SliceSplit<T>(s: seq<T>, i: nat, j: nat)
    requires i <= j <= |s|
    ensures s[i..] == s[i..j] + s[j..]
  {
  }

  lemma {:induction false} ExpandAllCons(b: Block, bs: seq<Block>)
    ensures ExpandAll([b] + bs) == Expand(b) + ExpandAll(bs)
  {
    assert ([b] + bs)[1..] == bs;
  }

  /** The control bytes of emitted blocks: 0..126 for a literal run, 130..254
      for a repeat, so the no-op 128 never appears. */
  lemma {:induction false} EmittedControl(b: Block)
    requires Emitted(b)
    ensures b.Literal? ==> Control(b) == |b.data| - 1 <= 126
    ensures b.Repeat? ==> 130 <= Control(b) == 257 - b.count <= 254
    ensures Control(b) != 128
  {
  }

  /** A cursor on the last byte of the row emits exactly `0, row[len - 1]`. */
  lemma {:induction false} LastByteLiteral(row: seq<byte>)
    requires |row| >= 1
    ensures Serialize(Plan(row, |row| - 1)) == [0, row[|row| - 1]]
  {
    var last := Literal([row[|row| - 1]]);
    assert Plan(row, |row| - 1) == [last];
    assert Control(last) == 0;
    assert Serialize([last]) == BlockBytes(last) + Serialize([]);
    assert BlockBytes(last) == [0, row[|row| - 1]];
  }

  // ---------------------------------------------------------------------------
  // Decoding inverts serializing

  /** Decoding one encodable block in front of a stream that decodes to `d`. */
  lemma {:induction false} DecodeBlock(b: Block, t: seq<byte>, d: seq<byte>)
    requires Encodable(b) && Decode(t) == Some(d)
    ensures Decode(BlockBytes(b) + t) == Some(Expand(b) + d)
  {
    var s := BlockBytes(b) + t;
    match b
    case Literal(l) =>
      assert s[0] == |l| - 1;
      assert s[1..1 + |l|] == l;
      assert Front(s) == Some((l, 1 + |l|));
      assert s[1 + |l|..] == t;
    case Repeat(n, v) =>
      assert s[0] == 257 - n && s[1] == v;
      assert Front(s) == Some((Repeated(v, n), 2));
      assert s[2..] == t;
  }

  /** Decoding a stream of encodable blocks in front of a stream that decodes
      to `d`. */
  lemma {:induction false} DecodeSerialized(bs: seq<Block>, t: seq<byte>, d: seq<byte>)
    requires forall k :: 0 <= k < |bs| ==> Encodable(bs[k])
    requires Decode(t) == Some(d)
    ensures Decode(Serialize(bs) + t) == Some(ExpandAll(bs) + d)
  {
    if bs == [] {
      assert Serialize(bs) + t == t;
      assert ExpandAll(bs) + d == d;
    } else {
      DecodeSerialized(bs[1..], t, d);
      DecodeCons(bs[0], bs[1..], t, d);
      assert [bs[0]] + bs[1..] == bs;
    }
  }

  /** One step of `DecodeSerialized`. */
  lemma {:induction false} DecodeCons(b: Block, rest: seq<Block>, t: seq<byte>, d: seq<byte>)
    requires Encodable(b) && Decode(Serialize(rest) + t) == Some(ExpandAll(rest) + d)
    ensures Decode(Serialize([b] + rest) + t) == Some(ExpandAll([b] + rest) + d)
  {
    SerializeCons(b, rest);
    AppendAssoc(BlockBytes(b), Serialize(rest), t);
    DecodeBlock(b, Serialize(rest) + t, ExpandAll(rest) + d);
    ExpandAllCons(b, rest);
    AppendAssoc(Expand(b), ExpandAll(rest), d);
  }

  /** More input after a complete block does not change how the block reads. */
  lemma {:induction false} FrontPrefix(s: seq<byte>, t: seq<byte>)
    requires s != [] && Front(s).Some?
    ensures Front(s + t) == Front(s)
  {
    var u := s + t;
    assert u[0] == s[0];
    if s[0] <= 127 {
      assert u[1..2 + s[0]] == s[1..2 + s[0]];
    } else if s[0] != 128 {
      assert u[1] == s[1];
    }
  }

  /** A stream that decodes, followed by another that decodes, decodes to the
      two results one after the other: the decoder never reads across the
      end of a complete stream. */
  lemma {:induction false} DecodeConcat(s: seq<byte>, t: seq<byte>, a: seq<byte>, b: seq<byte>)
    requires Decode(s) == Some(a) && Decode(t) == Some(b)
    ensures Decode(s + t) == Some(a + b)
    decreases |s|
  {
    if s == [] {
      assert s + t == t && a + b == b;
    } else {
      var d, len := Front(s).value.0, Front(s).value.1;
      var rest := Decode(s[len..]).value;
      assert a == d + rest;
      DecodeConcat(s[len..], t, rest, b);
      FrontPrefix(s, t);
      DropAppend(s, t, len);
      AppendAssoc(d, rest, b);
    }
  }

  /** The round trip: the decoder gives back exactly the row that was
      compressed, and an empty row compresses to nothing. */
  lemma {:induction false} CompressRoundTrip(row: seq<byte>)
    ensures Decode(Compressed(row)) == Some(row)
    ensures row == [] ==> Compressed(row) == []
  {
    var bs := Plan(row, 0);
    PlanEmitted(row, 0);
    PlanExpands(row, 0);
    DecodeSerialized(bs, [], []);
    assert Serialize(bs) + [] == Serialize(bs);
    assert ExpandAll(bs) + [] == row;
  }

  /** Rows compressed one by one and written back to back decode, as one
      stream, to the rows back to back. */
  lemma {:induction false} ConcatDecodes(es: seq<seq<byte>>, rows: seq<seq<byte>>)
    requires |es| == |rows|
    requires forall i :: 0 <= i < |es| ==> es[i] == Compressed(rows[i])
    ensures Decode(Concat(es)) == Some(Concat(rows))
    decreases |es|
  {
    if es != [] {
      var m := |es| - 1;
      ConcatDecodes(es[..m], rows[..m]);
      CompressRoundTrip(rows[m]);
      DecodeConcat(Concat(es[..m]), es[m], Concat(rows[..m]), rows[m]);
    }
  }
}
