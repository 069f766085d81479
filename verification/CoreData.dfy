/** The data of the CoreMark list and its comparators, which write to the data they look at. */
module CoreData {
  import opened StableMerge

  type Int16 = x: int | -0x8000 <= x < 0x8000

  /** `idx` is the rank of an item; no list operation assigns it. */
  class ListData {
    const idx: int
    var data16: Int16

    constructor (i: int, d: Int16)
      ensures idx == i && data16 == d
    {
      idx, data16 := i, d;
    }
  }

  /** The state machine and matrix kernels on their fixed memory, and `crcu16`. */
  datatype Kernels = Kernels(state: (int, int) -> Int16, matrix: (int, int) -> Int16, crc: (int, int) -> int)

  /** `cmp_complex`, `cmp_idx` (`alone`: with `res` NULL), or any other comparator that writes nothing. */
  datatype Order =
    | Complex(kernels: Kernels)
    | ByIndex(alone: bool)
    | Given(answer: (ListData, ListData, nat) -> int)

  /** What a comparator reads and writes; `comparisons` stands for anything else it may remember. */
  datatype Memory = Memory(data: Contents, crc: int, crcState: int, crcMatrix: int, comparisons: nat)

  function Data(m: Memory, d: ListData): Int16 {
    At(m.data, d)
  }

  function At(data: Contents, d: ListData): Int16 {
    if d in data then data[d] else 0
  }

  function Store(m: Memory, d: ListData, x: Int16): Memory {
    m.(data := m.data[d := x])
  }

  /** The byte that no comparator changes. */
  function HighByte(x: Int16): int {
    x / 0x100
  }

  predicate IsCached(x: Int16) {
    x / 0x80 % 2 == 1
  }

  /** `(x & 0xff00) | 0x0080 | r`. */
  function WithResult(x: Int16, r: int): (y: Int16)
    requires 0 <= r < 0x80
    ensures HighByte(y) == HighByte(x) && IsCached(y) && y % 0x80 == r
  {
    x / 0x100 * 0x100 + 0x80 + r
  }

  /** `(x & 0xff00) | (0x00ff & (x >> 8))`. */
  function Rebuilt(x: Int16): (y: Int16)
    ensures HighByte(y) == HighByte(x)
    ensures y == x <==> x % 0x100 == HighByte(x) % 0x100
  {
    x / 0x100 * 0x100 + HighByte(x) % 0x100
  }

  lemma RebuiltByHighByte(x: Int16, y: Int16)
    requires HighByte(x) == HighByte(y)
    ensures Rebuilt(x) == Rebuilt(y)
  {
  }

  /** `dtype |= dtype << 4` on bits 3 to 6. */
  function Pattern(x: Int16): int {
    x / 8 % 16 * 0x11
  }

  /** `calc_func`: bits 0 to 2 choose the function, the result is cached in the low byte. */
  function Calculated(k: Kernels, d: ListData, m: Memory): (r: (int, Memory))
    ensures 0 <= r.0 < 0x80
  {
    var x := Data(m, d);
    if IsCached(x) then (x % 0x80, m)
    else
      var r := KernelResult(k, x, m.crc);
      var m' := m.(crcState := if x % 8 == 0 && m.crcState == 0 then r % 0x10000 else m.crcState,
                   crcMatrix := if x % 8 == 1 && m.crcMatrix == 0 then r % 0x10000 else m.crcMatrix,
                   crc := k.crc(r % 0x10000, m.crc));
      (r % 0x80, Store(m', d, WithResult(x, r % 0x80)))
  }

  function KernelResult(k: Kernels, x: Int16, crc: int): Int16 {
    if x % 8 == 0 then k.state(if Pattern(x) < 0x22 then 0x22 else Pattern(x), crc)
    else if x % 8 == 1 then k.matrix(Pattern(x), crc)
    else x
  }

  /** The answer of a comparison, and what it leaves behind. */
  function Compared(o: Order, a: ListData, b: ListData, m: Memory): (int, Memory) {
    match o
    case Complex(k) =>
      var x := Calculated(k, a, m);
      var y := Calculated(k, b, x.1);
      (x.0 - y.0, y.1.(comparisons := m.comparisons + 1))
    case ByIndex(alone) =>
      var m' := if !alone then m else
        var n := Store(m, a, Rebuilt(Data(m, a)));
        Store(n, b, Rebuilt(Data(n, b)));
      (a.idx - b.idx, m'.(comparisons := m.comparisons + 1))
    case Given(answer) => (answer(a, b, m.comparisons), m.(comparisons := m.comparisons + 1))
  }

  type Contents = map<ListData, Int16>

  ghost function DataOf(infos: set<ListData>): (data: Contents)
    reads infos
    ensures data.Keys == infos
  {
    map d: ListData | d in infos :: d.data16
  }

  ghost function Now(infos: set<ListData>, res: CoreResults): (m: Memory)
    reads infos, res
    ensures m.data.Keys == infos
  {
    Memory(DataOf(infos), res.crc, res.crcState, res.crcMatrix, res.comparisons)
  }

  class CoreResults {
    var crc: int
    var crcState: int
    var crcMatrix: int
    var comparisons: nat

    constructor (c: int)
      ensures crc == c && crcState == 0 && crcMatrix == 0 && comparisons == 0
    {
      crc, crcState, crcMatrix, comparisons := c, 0, 0, 0;
    }

    method CalcFunc(d: ListData, k: Kernels, ghost infos: set<ListData>) returns (r: int)
      requires d in infos
      modifies this, d`data16
      ensures (r, Now(infos, this)) == Calculated(k, d, old(Now(infos, this)))
      ensures var x, input := old(d.data16), old(d.data16) / 8 % 16 * 0x11;
              if x / 0x80 % 2 == 1 then
                r == x % 0x80 && unchanged(d) && unchanged(this)
              else
                var answer := if x % 8 == 0 then k.state(if input < 0x22 then 0x22 else input, old(crc))
                              else if x % 8 == 1 then k.matrix(input, old(crc)) else x;
                && r == answer % 0x80 && crc == k.crc(answer % 0x10000, old(crc))
                && d.data16 / 0x100 == x / 0x100 && d.data16 % 0x100 == 0x80 + r
                && crcState == (if x % 8 == 0 && old(crcState) == 0 then answer % 0x10000 else old(crcState))
                && crcMatrix == (if x % 8 == 1 && old(crcMatrix) == 0 then answer % 0x10000 else old(crcMatrix))
    {
      var data := d.data16;
      if data / 0x80 % 2 == 1 {
        return data % 0x80;
      }
      var flag, dtype := data % 8, data / 8 % 16;
      dtype := dtype * 0x11;
      ghost var m := Now(infos, this);
      assert Data(m, d) == data;
      var retval: Int16;
      if flag == 0 {
        if dtype < 0x22 {
          dtype := 0x22;
        }
        retval := k.state(dtype, crc);
        if crcState == 0 {
          crcState := retval % 0x10000;
        }
      } else if flag == 1 {
        retval := k.matrix(dtype, crc);
        if crcMatrix == 0 {
          crcMatrix := retval % 0x10000;
        }
      } else {
        retval := data;
      }
      crc := k.crc(retval % 0x10000, crc);
      r := retval % 0x80;
      d.data16 := WithResult(data, r);
      assert Now(infos, this).data == m.data[d := WithResult(data, r)];
    }

    method Count(ghost infos: set<ListData>)
      modifies this`comparisons
      ensures Now(infos, this) == old(Now(infos, this)).(comparisons := old(comparisons) + 1)
    {
      ghost var m := Now(infos, this);
      comparisons := comparisons + 1;
      assert Now(infos, this).data == m.data;
    }

    method CmpComplex(a: ListData, b: ListData, k: Kernels, ghost infos: set<ListData>) returns (r: int)
      requires a in infos && b in infos
      modifies this, a`data16, b`data16
      ensures (r, Now(infos, this)) == Compared(Complex(k), a, b, old(Now(infos, this)))
    {
      var val1 := CalcFunc(a, k, infos);
      var val2 := CalcFunc(b, k, infos);
      Count(infos);
      r := val1 - val2;
    }

    method CmpIdx(a: ListData, b: ListData, alone: bool, ghost infos: set<ListData>) returns (r: int)
      requires a in infos && b in infos
      modifies this, a`data16, b`data16
      ensures (r, Now(infos, this)) == Compared(ByIndex(alone), a, b, old(Now(infos, this)))
    {
      ghost var m := Now(infos, this);
      if alone {
        a.data16 := Rebuilt(a.data16);
        ghost var n := Store(m, a, Rebuilt(Data(m, a)));
        assert Now(infos, this).data == n.data;
        b.data16 := Rebuilt(b.data16);
        assert Now(infos, this).data == Store(n, b, Rebuilt(Data(n, b))).data;
      }
      Count(infos);
      r := a.idx - b.idx;
    }

    /** Calling the comparator. */
    method Compare(a: ListData, b: ListData, o: Order, ghost infos: set<ListData>) returns (r: int)
      requires a in infos && b in infos
      modifies this, a`data16, b`data16
      ensures (r, Now(infos, this)) == Compared(o, a, b, old(Now(infos, this)))
    {
      match o {
        case Complex(k) => r := CmpComplex(a, b, k, infos);
        case ByIndex(alone) => r := CmpIdx(a, b, alone, infos);
        case Given(answer) =>
          r := answer(a, b, comparisons);
          Count(infos);
      }
    }
  }

  // ----- what comparisons keep and settle -----

  ghost predicate SameHighBytes(m: Memory, n: Memory) {
    n.data.Keys == m.data.Keys && forall d :: d in m.data ==> HighByte(n.data[d]) == HighByte(m.data[d])
  }

  /** Cached results are never changed. */
  ghost predicate KeepsCached(m: Memory, n: Memory) {
    forall d :: d in m.data && d in n.data && IsCached(m.data[d]) ==> n.data[d] == m.data[d]
  }

  lemma CalculatedKeeps(k: Kernels, d: ListData, m: Memory)
    requires d in m.data
    ensures var r := Calculated(k, d, m);
            && SameHighBytes(m, r.1) && KeepsCached(m, r.1)
            && IsCached(r.1.data[d]) && r.1.data[d] % 0x80 == r.0
  {
  }

  /** Calculating again answers the same and changes nothing. */
  lemma CalculatedOnce(k: Kernels, d: ListData, m: Memory)
    ensures var r := Calculated(k, d, m); Calculated(k, d, r.1) == r
  {
  }

  /** A complex comparison answers by the results that both entries have cached from then on. */
  lemma ComplexSettles(k: Kernels, a: ListData, b: ListData, m: Memory)
    requires a in m.data && b in m.data
    ensures var r := Compared(Complex(k), a, b, m);
            && SameHighBytes(m, r.1) && KeepsCached(m, r.1)
            && IsCached(r.1.data[a]) && IsCached(r.1.data[b])
            && r.0 == r.1.data[a] % 0x80 - r.1.data[b] % 0x80
  {
    CalculatedKeeps(k, a, m);
    CalculatedKeeps(k, b, Calculated(k, a, m).1);
  }

  lemma IndexRebuilds(a: ListData, b: ListData, m: Memory)
    requires a in m.data && b in m.data
    ensures var r := Compared(ByIndex(true), a, b, m);
            && SameHighBytes(m, r.1)
            && (forall d :: d in m.data && (d == a || d == b || m.data[d] == Rebuilt(m.data[d])) ==>
                  r.1.data[d] == Rebuilt(r.1.data[d]))
  {
    RebuiltTwice(m.data[a]);
    RebuiltTwice(m.data[b]);
  }

  lemma RebuiltTwice(x: Int16)
    ensures Rebuilt(Rebuilt(x)) == Rebuilt(x)
  {
    RebuiltByHighByte(Rebuilt(x), x);
  }
}
