/** The generator of the table file, and the file as memory contents. */
module MinirvLut {
  import opened MachineWords
  import opened MinirvMachine
  import opened MinirvMacros
  import opened MinirvTables
  import opened Rv32iValues
  import opened ShiftBytes

  ghost predicate BytesIn(file: seq<Byte>, at: nat, expr: (Byte, Byte) -> Byte) {
    at + 0x1_0000 <= |file| && forall m: nat :: m < 0x1_0000 ==> file[at + m] == expr(m / 0x100, m % 0x100)
  }

  ghost predicate WordsIn(file: seq<Byte>, at: nat, expr: (Byte, Byte) -> Word) {
    && at + 0x8000 <= |file|
    && forall m: nat, k: nat :: m < 0x2000 && k < 4 ==> file[at + 4 * m + k] == EntryByte(expr, m, k)
  }

  // ----- the generator -----

  /** A table of 256 rows and columns, one byte an entry, appended to the file. */
  method GenByteTable(file: seq<Byte>, expr: (Byte, Byte) -> Byte) returns (r: seq<Byte>)
    ensures |r| == |file| + 0x1_0000 && r[..|file|] == file
    ensures BytesIn(r, |file|, expr)
  {
    r := file;
    for j := 0 to 256
      invariant |r| == |file| + 0x100 * j && r[..|file|] == file
      invariant forall m: nat :: m < 0x100 * j ==> r[|file| + m] == expr(m / 0x100, m % 0x100)
    {
      for i := 0 to 256
        invariant |r| == |file| + 0x100 * j + i && r[..|file|] == file
        invariant forall m: nat :: m < 0x100 * j + i ==> r[|file| + m] == expr(m / 0x100, m % 0x100)
      {
        RowColumn(j, i);
        r := r + [expr(j, i)];
      }
    }
  }

  /** A table of 32 rows and 256 columns, four bytes an entry, least significant first. */
  method GenWordTable(file: seq<Byte>, expr: (Byte, Byte) -> Word) returns (r: seq<Byte>)
    ensures |r| == |file| + 0x8000 && r[..|file|] == file
    ensures WordsIn(r, |file|, expr)
  {
    r := file;
    for j := 0 to 32
      invariant |r| == |file| + 0x400 * j && r[..|file|] == file
      invariant forall m: nat, k: nat :: m < 0x100 * j && k < 4 ==> r[|file| + 4 * m + k] == EntryByte(expr, m, k)
    {
      for i := 0 to 256
        invariant |r| == |file| + 0x400 * j + 4 * i && r[..|file|] == file
        invariant forall m: nat, k: nat :: m < 0x100 * j + i && k < 4 ==> r[|file| + 4 * m + k] == EntryByte(expr, m, k)
      {
        RowColumn(j, i);
        var res := expr(j, i);
        r := r + [ByteAt(res, 0), ByteAt(res, 1), ByteAt(res, 2), ByteAt(res, 3)];
      }
    }
  }

  function EntryByte(expr: (Byte, Byte) -> Word, m: nat, k: nat): Byte
    requires m < 0x1_0000 && k < 4
  {
    ByteAt(expr(m / 0x100, m % 0x100), k)
  }

  lemma RowColumn(j: nat, i: nat)
    requires i < 0x100
    ensures (0x100 * j + i) / 0x100 == j && (0x100 * j + i) % 0x100 == i
  {
  }

  function BitwiseEntryByte(op: Bitwise, j: Byte, i: Byte): Byte {
    BitwiseSplit(op, 0, j, 0, i);
    op.Of(j, i)
  }

  function BitwiseExpr(op: Bitwise): (Byte, Byte) -> Byte { (j, i) => BitwiseEntryByte(op, j, i) }

  function SllExpr(): (Byte, Byte) -> Word { (j, i) => SllEntry(i, j) }

  function SrlExpr(): (Byte, Byte) -> Word { (j, i) => SrlEntry(i, j) }

  function SraExpr(): (Byte, Byte) -> Word { (j, i) => SraEntry(i, j) }

  /** Loading the generated file at its label puts the six tables where the macros look for them. */
  method GenerateLut() returns (file: seq<Byte>)
    ensures |file| == LUT_SIZE
    ensures forall lay: Layout, data: Mem :: Loaded(lay, data, file) ==> LutIn(lay, data)
  {
    var f1 := GenByteTable([], BitwiseExpr(AndOp));
    var f2 := GenByteTable(f1, BitwiseExpr(OrOp));
    var f3 := GenByteTable(f2, BitwiseExpr(XorOp));
    var f4 := GenWordTable(f3, SllExpr());
    var f5 := GenWordTable(f4, SrlExpr());
    file := GenWordTable(f5, SraExpr());
    BytesKept(f1, f2, 0, BitwiseExpr(AndOp));
    BytesKept(f2, f3, 0, BitwiseExpr(AndOp));
    BytesKept(f2, f3, 0x1_0000, BitwiseExpr(OrOp));
    assert f3 == file[..|f3|];
    BytesKept(f3, file, 0, BitwiseExpr(AndOp));
    BytesKept(f3, file, 0x1_0000, BitwiseExpr(OrOp));
    BytesKept(f3, file, 0x2_0000, BitwiseExpr(XorOp));
    WordsKept(f4, f5, 0x3_0000, SllExpr());
    WordsKept(f5, file, 0x3_0000, SllExpr());
    WordsKept(f5, file, 0x3_8000, SrlExpr());
    forall lay: Layout, data: Mem | Loaded(lay, data, file) ensures LutIn(lay, data) {
      LutLoaded(lay, data, file);
    }
  }

  lemma BytesKept(f: seq<Byte>, g: seq<Byte>, at: nat, expr: (Byte, Byte) -> Byte)
    requires |f| <= |g| && g[..|f|] == f && BytesIn(f, at, expr)
    ensures BytesIn(g, at, expr)
  {
    forall m: nat | m < 0x1_0000 ensures g[at + m] == expr(m / 0x100, m % 0x100) {
      assert g[at + m] == f[at + m];
    }
  }

  lemma WordsKept(f: seq<Byte>, g: seq<Byte>, at: nat, expr: (Byte, Byte) -> Word)
    requires |f| <= |g| && g[..|f|] == f && WordsIn(f, at, expr)
    ensures WordsIn(g, at, expr)
  {
    forall m: nat, k: nat | m < 0x2000 && k < 4 ensures g[at + 4 * m + k] == EntryByte(expr, m, k) {
      assert g[at + 4 * m + k] == f[at + 4 * m + k];
    }
  }

  /** The file sits at its label. */
  ghost predicate Loaded(lay: Layout, data: Mem, file: seq<Byte>) {
    |file| == LUT_SIZE && forall k :: 0 <= k < LUT_SIZE ==> Peek(data, lay.lut + k) == file[k]
  }

  lemma LutLoaded(lay: Layout, data: Mem, file: seq<Byte>)
    requires Loaded(lay, data, file)
    requires BytesIn(file, 0, BitwiseExpr(AndOp)) && BytesIn(file, 0x1_0000, BitwiseExpr(OrOp))
    requires BytesIn(file, 0x2_0000, BitwiseExpr(XorOp))
    requires WordsIn(file, 0x3_0000, SllExpr()) && WordsIn(file, 0x3_8000, SrlExpr())
    requires WordsIn(file, 0x4_0000, SraExpr())
    ensures LutIn(lay, data)
  {
    BytesLoaded(lay, data, file, 0, AndOp);
    BytesLoaded(lay, data, file, 0x1_0000, OrOp);
    BytesLoaded(lay, data, file, 0x2_0000, XorOp);
    WordsLoaded(lay, data, file, 0x3_0000, SllExpr());
    WordsLoaded(lay, data, file, 0x3_8000, SrlExpr());
    WordsLoaded(lay, data, file, 0x4_0000, SraExpr());
    assert lay.And8() == lay.lut + 0 && lay.Or8() == lay.lut + 0x1_0000 && lay.Xor8() == lay.lut + 0x2_0000;
    forall j: nat, i: nat | j < 256 && i < 256
      ensures ByteEntry(data, lay.And8(), j, i) == BitAnd(j, i)
           && ByteEntry(data, lay.Or8(), j, i) == BitOr(j, i)
           && ByteEntry(data, lay.Xor8(), j, i) == BitXor(j, i)
    {
      assert ByteEntry(data, lay.lut + 0, j, i) == AndOp.Of(j, i);
      assert ByteEntry(data, lay.lut + 0x1_0000, j, i) == OrOp.Of(j, i);
      assert ByteEntry(data, lay.lut + 0x2_0000, j, i) == XorOp.Of(j, i);
    }
    forall j: nat, i: Byte | j < 32
      ensures WordEntry(data, lay.Sll8(), j, i) == SllEntry(i, j)
           && WordEntry(data, lay.Srl8(), j, i) == SrlEntry(i, j)
           && WordEntry(data, lay.Sra8(), j, i) == SraEntry(i, j)
    {
      assert SllExpr()(j, i) == SllEntry(i, j) && SrlExpr()(j, i) == SrlEntry(i, j);
      assert SraExpr()(j, i) == SraEntry(i, j);
    }
  }

  lemma BytesLoaded(lay: Layout, data: Mem, file: seq<Byte>, at: nat, op: Bitwise)
    requires Loaded(lay, data, file) && BytesIn(file, at, BitwiseExpr(op))
    ensures forall j: nat, i: nat :: j < 256 && i < 256 ==> ByteEntry(data, lay.lut + at, j, i) == op.Of(j, i)
  {
    forall j: nat, i: nat | j < 256 && i < 256 ensures ByteEntry(data, lay.lut + at, j, i) == op.Of(j, i) {
      RowColumn(j, i);
      assert file[at + (0x100 * j + i)] == BitwiseExpr(op)(j, i);
      assert Peek(data, lay.lut + (at + (0x100 * j + i))) == file[at + (0x100 * j + i)];
    }
  }

  lemma WordsLoaded(lay: Layout, data: Mem, file: seq<Byte>, at: nat, expr: (Byte, Byte) -> Word)
    requires Loaded(lay, data, file) && WordsIn(file, at, expr)
    ensures forall j: nat, i: Byte :: j < 32 ==> WordEntry(data, lay.lut + at, j, i) == expr(j, i)
  {
    forall j: nat, i: Byte | j < 32 ensures WordEntry(data, lay.lut + at, j, i) == expr(j, i) {
      WordLoaded(lay, data, file, at, expr, j, i);
    }
  }

  lemma WordLoaded(lay: Layout, data: Mem, file: seq<Byte>, at: nat, expr: (Byte, Byte) -> Word, j: nat, i: Byte)
    requires Loaded(lay, data, file) && WordsIn(file, at, expr) && j < 32
    ensures WordEntry(data, lay.lut + at, j, i) == expr(j, i)
  {
    hide ByteAt;
    hide Join;
    RowColumn(j, i);
    var m: nat := 0x100 * j + i;
    JoinBytes(expr(j, i));
    assert file[at + 4 * m + 0] == EntryByte(expr, m, 0) && file[at + 4 * m + 1] == EntryByte(expr, m, 1);
    assert file[at + 4 * m + 2] == EntryByte(expr, m, 2) && file[at + 4 * m + 3] == EntryByte(expr, m, 3);
    assert Peek(data, lay.lut + (at + 4 * m)) == file[at + 4 * m];
    assert Peek(data, lay.lut + (at + 4 * m + 1)) == file[at + 4 * m + 1];
    assert Peek(data, lay.lut + (at + 4 * m + 2)) == file[at + 4 * m + 2];
    assert Peek(data, lay.lut + (at + 4 * m + 3)) == file[at + 4 * m + 3];
  }
}
