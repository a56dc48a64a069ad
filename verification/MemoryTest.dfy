/** The destructive memory tests, run against a memory whose address decoder and
    cells may be faulty.  A word is `w` bits wide, w being 8, 16 or 32 for the
    three variants of the test; shifts and masks by powers of two are written as
    arithmetic. */
module MemoryTest {

  const ADDRESSES := 0x1_0000_0000

  function Pow2(n: nat): (p: nat)
    ensures p > 0
  {
    if n == 0 then 1 else 2 * Pow2(n - 1)
  }

  predicate Width(w: nat) {
    w == 8 || w == 16 || w == 32
  }

  // ---------- The memory under test ----------

  /** `decode` maps an address to the cell it reaches, `distort` is what a cell
      makes of the word stored in it. */
  class Memory {
    const decode: nat -> nat
    const distort: (nat, nat) -> nat
    var cells: map<nat, nat>
    ghost var written: set<nat>

    constructor (decode: nat -> nat, distort: (nat, nat) -> nat)
      ensures this.decode == decode && this.distort == distort && written == {}
    {
      this.decode, this.distort, this.cells, written := decode, distort, map[], {};
    }

    function Peek(a: nat): nat
      reads this
    {
      distort(decode(a), if decode(a) in cells then cells[decode(a)] else 0)
    }

    method Write(a: nat, v: nat)
      modifies this
      ensures cells == old(cells)[decode(a) := v] && written == old(written) + {a}
    {
      cells := cells[decode(a) := v];
      written := written + {a};
    }

    method Read(a: nat) returns (v: nat)
      ensures v == Peek(a)
    {
      v := Peek(a);
    }
  }

  /** `&Addr[i]`, an address of 32 bits. */
  function AddressOf(base: nat, w: nat, i: nat): nat {
    (base + w / 8 * i) % ADDRESSES
  }

  /** The addresses of the first n words. */
  ghost function Block(base: nat, w: nat, n: nat): set<nat> {
    set i | 0 <= i < n :: AddressOf(base, w, i)
  }

  ghost function Cell(m: Memory, base: nat, w: nat, i: nat): nat {
    m.decode(AddressOf(base, w, i))
  }

  type Pattern = nat -> nat

  /** The condition under which writing `p(0)`, ..., `p(n-1)` in order and reading
      them back finds no difference: words that share a cell have the same value,
      and no cell alters the value it is given. */
  ghost predicate Passes(m: Memory, base: nat, w: nat, n: nat, p: Pattern) {
    && (forall i, j :: 0 <= i < n && 0 <= j < n && Cell(m, base, w, i) == Cell(m, base, w, j) ==> p(i) == p(j))
    && (forall i :: 0 <= i < n ==> m.distort(Cell(m, base, w, i), p(i)) == p(i))
  }

  /** The last of the first n words that was written to cell c, or -1. */
  ghost function Last(m: Memory, base: nat, w: nat, c: nat, n: nat): (k: int)
    ensures -1 <= k < n
    ensures k >= 0 ==> Cell(m, base, w, k) == c
    ensures k == -1 ==> forall i :: 0 <= i < n ==> Cell(m, base, w, i) != c
  {
    if n == 0 then -1 else if Cell(m, base, w, n - 1) == c then n - 1 else Last(m, base, w, c, n - 1)
  }

  ghost predicate Filled(m: Memory, base: nat, w: nat, n: nat, p: Pattern)
    reads m
  {
    forall c: nat :: Last(m, base, w, c, n) >= 0 ==> c in m.cells && m.cells[c] == p(Last(m, base, w, c, n))
  }

  ghost predicate ReadsBack(m: Memory, base: nat, w: nat, n: nat, p: Pattern)
    reads m
  {
    forall i :: 0 <= i < n ==> m.Peek(AddressOf(base, w, i)) == p(i)
  }

  lemma ReadsBackIffPasses(m: Memory, base: nat, w: nat, n: nat, p: Pattern)
    requires Filled(m, base, w, n, p)
    ensures ReadsBack(m, base, w, n, p) <==> Passes(m, base, w, n, p)
  {
    forall i | 0 <= i < n
      ensures var c := Cell(m, base, w, i);
        var k := Last(m, base, w, c, n);
        0 <= k < n && Cell(m, base, w, k) == c && m.Peek(AddressOf(base, w, i)) == m.distort(c, p(k))
    {
      var c := Cell(m, base, w, i);
      assert Last(m, base, w, c, n) >= 0;
    }
    if ReadsBack(m, base, w, n, p) {
      forall i, j | 0 <= i < n && 0 <= j < n && Cell(m, base, w, i) == Cell(m, base, w, j) ensures p(i) == p(j) {
        assert m.Peek(AddressOf(base, w, i)) == m.Peek(AddressOf(base, w, j));
      }
    }
  }

  // ---------- The patterns ----------

  /** Rotate left by one bit within `w` bits. */
  function RotateLeft(input: nat, w: nat): nat
    requires w > 0
  {
    var masked := input % Pow2(w);
    var msb := masked / Pow2(w - 1) % 2;
    var shifted := masked * 2 % ADDRESSES;
    (if msb != 0 then shifted + 1 else shifted) % Pow2(w)
  }

  /** The complement within `w` bits. */
  function Invert(v: nat, w: nat): nat {
    Pow2(w) - 1 - v % Pow2(w)
  }

  lemma {:induction false} Pow2Monotone(i: nat, j: nat)
    requires i < j
    ensures 2 * Pow2(i) <= Pow2(j)
    decreases j
  {
    if i < j - 1 {
      Pow2Monotone(i, j - 1);
    }
  }

  lemma {:induction false} Pow2Sum(i: nat, j: nat)
    ensures Pow2(i + j) == Pow2(i) * Pow2(j)
  {
    if i > 0 {
      Pow2Sum(i - 1, j);
    }
  }

  lemma Pow2At32()
    ensures Pow2(8) == 0x100 && Pow2(16) == 0x1_0000 && Pow2(32) == ADDRESSES
  {
    Pow2Sum(8, 8);
    Pow2Sum(16, 16);
  }

  /** Rotating a one-hot word moves its bit one place on, around the end. */
  lemma RotateOneHot(k: nat, w: nat)
    requires Width(w) && k < w
    ensures RotateLeft(Pow2(k), w) == Pow2((k + 1) % w)
  {
    hide Width;
    WidthFits(w);
    var bit, top := Pow2(k), Pow2(w - 1);
    assert Pow2(w) == 2 * top;
    if k == w - 1 {
      TopWraps(top);
      ModOnce(w, w);
    } else {
      Pow2Monotone(k, w - 1);
      LowMoves(bit, top);
      ModSmall(k + 1, w);
    }
  }

  lemma WidthFits(w: nat)
    requires Width(w)
    ensures w > 1 && Pow2(w) <= ADDRESSES && (Pow2(w) == ADDRESSES || Pow2(w) < ADDRESSES)
  {
    Pow2At32();
  }

  lemma ModSmall(x: nat, m: nat)
    requires x < m
    ensures x % m == x && x / m == 0
  {}

  lemma ModOnce(x: nat, m: nat)
    requires m <= x < 2 * m
    ensures x % m == x - m && x / m == 1
  {
    ModSmall(x - m, m);
    assert x == 1 * m + (x - m);
  }

  lemma TopWraps(top: nat)
    requires 1 < 2 * top <= ADDRESSES
    ensures top % (2 * top) == top && top / top % 2 == 1
    ensures (top * 2 % ADDRESSES + 1) % (2 * top) == 1
  {
    ModSmall(top, 2 * top);
    ModOnce(top, top);
    var all := 2 * top;
    if all < ADDRESSES {
      ModSmall(all, ADDRESSES);
      ModOnce(all + 1, all);
    } else {
      ModOnce(all, ADDRESSES);
      ModSmall(1, all);
    }
  }

  lemma LowMoves(bit: nat, top: nat)
    requires 2 * bit <= top && 2 * top <= ADDRESSES && bit > 0
    ensures bit % (2 * top) == bit && bit / top % 2 == 0
    ensures bit * 2 % ADDRESSES % (2 * top) == 2 * bit
  {
    ModSmall(bit, 2 * top);
    ModSmall(bit, top);
    ModSmall(bit * 2, ADDRESSES);
    ModSmall(bit * 2, 2 * top);
  }

  ghost function Counting(w: nat): Pattern { i => (1 + i) % Pow2(w) }

  ghost function OneHots(j: nat, w: nat): Pattern
    requires w > 0
  {
    i => Pow2((j + i) % w)
  }

  ghost function OneColds(j: nat, w: nat): Pattern
    requires w > 0
  {
    i => Invert(Pow2((j + i) % w), w)
  }

  ghost function InvertedAddresses(base: nat, w: nat): Pattern {
    i => (ADDRESSES - 1 - AddressOf(base, w, i)) % Pow2(w)
  }

  ghost function Constant(v: nat): Pattern { i => v }

  // ---------- The subtests ----------

  /** One word written, and one read and compared. */
  method Put(m: Memory, base: nat, w: nat, i: nat, v: nat, ghost p: Pattern)
    requires v == p(i) && Filled(m, base, w, i, p)
    modifies m
    ensures Filled(m, base, w, i + 1, p)
    ensures m.written == old(m.written) + {AddressOf(base, w, i)}
  {
    m.Write(AddressOf(base, w, i), v);
  }

  method Same(m: Memory, base: nat, w: nat, i: nat, v: nat, ghost p: Pattern) returns (b: bool)
    requires v == p(i) && ReadsBack(m, base, w, i, p)
    ensures b == ReadsBack(m, base, w, i + 1, p)
  {
    var word := m.Read(AddressOf(base, w, i));
    b := word == v;
  }

  lemma PrefixReadsBack(m: Memory, base: nat, w: nat, i: nat, n: nat, p: Pattern)
    requires i <= n && !ReadsBack(m, base, w, i, p)
    ensures !ReadsBack(m, base, w, n, p)
  {}

  method Increment(m: Memory, base: nat, w: nat, words: nat) returns (r: int)
    requires Width(w)
    modifies m
    ensures r == if Passes(m, base, w, words, Counting(w)) then 0 else -1
    ensures m.written == old(m.written) + Block(base, w, words)
  {
    hide Passes, Filled, ReadsBack, Width, Pow2, AddressOf;
    ghost var p := Counting(w);
    WidthFits(w);
    var val := 1;
    StartAtOne(w);
    NoneFilled(m, base, w, p);
    for i := 0 to words
      invariant val == p(i)
      invariant Filled(m, base, w, i, p)
      invariant m.written == old(m.written) + Block(base, w, i)
    {
      Put(m, base, w, i, val, p);
      BlockGrows(base, w, i);
      CountOn(i, w);
      val := (val + 1) % Pow2(w);
    }
    ReadsBackIffPasses(m, base, w, words, p);
    NoneRead(m, base, w, p);
    val := 1;
    for i := 0 to words
      invariant val == p(i)
      modifies {}
      invariant ReadsBack(m, base, w, i, p)
    {
      var same := Same(m, base, w, i, val, p);
      if !same {
        PrefixReadsBack(m, base, w, i + 1, words, p);
        return -1;
      }
      CountOn(i, w);
      val := (val + 1) % Pow2(w);
    }
    r := 0;
  }

  lemma BlockGrows(base: nat, w: nat, i: nat)
    ensures Block(base, w, i + 1) == Block(base, w, i) + {AddressOf(base, w, i)}
  {
    hide AddressOf;
  }

  lemma NoneFilled(m: Memory, base: nat, w: nat, p: Pattern)
    ensures Filled(m, base, w, 0, p)
  {}

  lemma NoneRead(m: Memory, base: nat, w: nat, p: Pattern)
    ensures ReadsBack(m, base, w, 0, p)
  {}

  lemma StartAtOne(w: nat)
    requires Width(w)
    ensures 1 % Pow2(w) == 1
  {
    WidthFits(w);
    ModSmall(1, Pow2(w));
  }

  lemma CountOn(i: nat, w: nat)
    ensures ((1 + i) % Pow2(w) + 1) % Pow2(w) == (1 + (i + 1)) % Pow2(w)
  {
    ModStep(1 + i, Pow2(w));
  }

  lemma ModStep(x: nat, m: nat)
    requires m > 0
    ensures (x % m + 1) % m == (x + 1) % m
  {
    var q, r := x / m, x % m;
    assert x + 1 == q * m + (r + 1);
    if r + 1 == m {
      assert x + 1 == (q + 1) * m;
      MultipleMod(q + 1, m, 0);
      ModOnce(m, m);
    } else {
      MultipleMod(q, m, r + 1);
      ModSmall(r + 1, m);
    }
  }

  lemma {:induction false} MultipleMod(q: nat, m: nat, r: nat)
    requires r < m
    ensures (q * m + r) % m == r
  {
    ModUnique(q * m + r, m, q, r);
  }

  lemma ModUnique(x: nat, m: nat, q: nat, r: nat)
    requires m > 0 && x == q * m + r && r < m
    ensures x % m == r && x / m == q
  {
    var d, e := x / m - q, x % m;
    assert x == (x / m) * m + e;
    assert d * m == r - e by {
      assert (x / m) * m == d * m + q * m;
    }
    AtLeast(d, m);
    AtLeast(-d, m);
  }

  lemma AtLeast(d: int, m: nat)
    ensures d >= 1 ==> d * m >= m
    ensures d == 0 ==> d * m == 0
    ensures (-d) * m == -(d * m)
  {}

  /** One pass of the J loop: a single one, walking up from bit j. */
  method WalkOnesPass(m: Memory, base: nat, w: nat, j: nat) returns (ok: bool)
    requires Width(w) && j < w
    modifies m
    ensures ok == Passes(m, base, w, w, OneHots(j, w))
    ensures m.written == old(m.written) + Block(base, w, w)
  {
    hide Passes, Filled, ReadsBack, Width, Pow2, AddressOf;
    ghost var p := OneHots(j, w);
    ModSmall(j, w);
    NoneFilled(m, base, w, p);
    var val := Pow2(j);
    for i := 0 to w
      invariant val == p(i)
      invariant Filled(m, base, w, i, p)
      invariant m.written == old(m.written) + Block(base, w, i)
    {
      Put(m, base, w, i, val, p);
      BlockGrows(base, w, i);
      HotStep(j, i, w);
      val := RotateLeft(val, w);
    }
    ReadsBackIffPasses(m, base, w, w, p);
    NoneRead(m, base, w, p);
    val := Pow2(j);
    for i := 0 to w
      modifies {}
      invariant val == p(i)
      invariant ReadsBack(m, base, w, i, p)
    {
      var same := Same(m, base, w, i, val, p);
      if !same {
        PrefixReadsBack(m, base, w, i + 1, w, p);
        return false;
      }
      HotStep(j, i, w);
      val := RotateLeft(val, w);
    }
    ok := true;
  }

  method WalkOnes(m: Memory, base: nat, w: nat) returns (r: int)
    requires Width(w)
    modifies m
    ensures r == 0 || r == -1
    ensures r == 0 <==> forall j: nat :: j < w ==> Passes(m, base, w, w, OneHots(j, w))
    ensures m.written == old(m.written) + Block(base, w, w)
  {
    hide Passes;
    for j := 0 to w
      invariant m.written == old(m.written) + if j == 0 then {} else Block(base, w, w)
      invariant forall k: nat :: k < j ==> Passes(m, base, w, w, OneHots(k, w))
    {
      var ok := WalkOnesPass(m, base, w, j);
      if !ok {
        return -1;
      }
    }
    r := 0;
  }

  /** One pass of the J loop: a single zero, walking up from bit j. */
  method WalkZerosPass(m: Memory, base: nat, w: nat, j: nat) returns (ok: bool)
    requires Width(w) && j < w
    modifies m
    ensures ok == Passes(m, base, w, w, OneColds(j, w))
    ensures m.written == old(m.written) + Block(base, w, w)
  {
    hide Passes, Filled, ReadsBack, Width, Pow2, AddressOf;
    ghost var p := OneColds(j, w);
    ModSmall(j, w);
    NoneFilled(m, base, w, p);
    var val := Invert(Pow2(j), w);
    for i := 0 to w
      invariant val == p(i)
      invariant Filled(m, base, w, i, p)
      invariant m.written == old(m.written) + Block(base, w, i)
    {
      Put(m, base, w, i, val, p);
      BlockGrows(base, w, i);
      ColdStep(j, i, w);
      val := Invert(RotateLeft(Invert(val, w), w), w);
    }
    ReadsBackIffPasses(m, base, w, w, p);
    NoneRead(m, base, w, p);
    val := Invert(Pow2(j), w);
    for i := 0 to w
      modifies {}
      invariant val == p(i)
      invariant ReadsBack(m, base, w, i, p)
    {
      var same := Same(m, base, w, i, val, p);
      if !same {
        PrefixReadsBack(m, base, w, i + 1, w, p);
        return false;
      }
      ColdStep(j, i, w);
      val := Invert(RotateLeft(Invert(val, w), w), w);
    }
    ok := true;
  }

  method WalkZeros(m: Memory, base: nat, w: nat) returns (r: int)
    requires Width(w)
    modifies m
    ensures r == 0 || r == -1
    ensures r == 0 <==> forall j: nat :: j < w ==> Passes(m, base, w, w, OneColds(j, w))
    ensures m.written == old(m.written) + Block(base, w, w)
  {
    hide Passes;
    for j := 0 to w
      invariant m.written == old(m.written) + if j == 0 then {} else Block(base, w, w)
      invariant forall k: nat :: k < j ==> Passes(m, base, w, w, OneColds(k, w))
    {
      var ok := WalkZerosPass(m, base, w, j);
      if !ok {
        return -1;
      }
    }
    r := 0;
  }

  lemma HotStep(j: nat, i: nat, w: nat)
    requires Width(w)
    ensures RotateLeft(OneHots(j, w)(i), w) == OneHots(j, w)(i + 1)
  {
    RotateOneHot((j + i) % w, w);
    ModStep(j + i, w);
  }

  lemma ColdStep(j: nat, i: nat, w: nat)
    requires Width(w)
    ensures Invert(RotateLeft(Invert(OneColds(j, w)(i), w), w), w) == OneColds(j, w)(i + 1)
  {
    hide RotateLeft, Invert, Pow2, Width;
    WidthFits(w);
    InvertTwice((j + i) % w, w);
    HotStep(j, i, w);
  }

  lemma InvertTwice(b: nat, w: nat)
    requires b < w
    ensures Invert(Invert(Pow2(b), w), w) == Pow2(b) && Invert(Pow2(b), w) == Pow2(w) - 1 - Pow2(b)
  {
    Pow2Monotone(b, w);
    ModSmall(Pow2(b), Pow2(w));
    ModSmall(Pow2(w) - 1 - Pow2(b), Pow2(w));
  }

  method InverseAddress(m: Memory, base: nat, w: nat, words: nat) returns (r: int)
    requires Width(w)
    modifies m
    ensures r == if Passes(m, base, w, words, InvertedAddresses(base, w)) then 0 else -1
    ensures m.written == old(m.written) + Block(base, w, words)
  {
    hide Passes, Filled, ReadsBack, Width, Pow2, AddressOf;
    ghost var p := InvertedAddresses(base, w);
    NoneFilled(m, base, w, p);
    for i := 0 to words
      invariant Filled(m, base, w, i, p)
      invariant m.written == old(m.written) + Block(base, w, i)
    {
      var val := (ADDRESSES - 1 - AddressOf(base, w, i)) % Pow2(w);
      Put(m, base, w, i, val, p);
      BlockGrows(base, w, i);
    }
    ReadsBackIffPasses(m, base, w, words, p);
    NoneRead(m, base, w, p);
    for i := 0 to words
      modifies {}
      invariant ReadsBack(m, base, w, i, p)
    {
      var val := (ADDRESSES - 1 - AddressOf(base, w, i)) % Pow2(w);
      var same := Same(m, base, w, i, val, p);
      if !same {
        PrefixReadsBack(m, base, w, i + 1, words, p);
        return -1;
      }
    }
    r := 0;
  }

  /** The pattern the caller asks for, or the default of the variant. */
  function FixedValue(w: nat, pattern: nat): nat {
    if pattern != 0 then pattern
    else if w == 32 then 0xDEADBEEF
    else if w == 16 then 0xDEAD
    else 0xA5
  }

  method FixedPattern(m: Memory, base: nat, w: nat, words: nat, pattern: nat) returns (r: int)
    requires Width(w)
    modifies m
    ensures r == if Passes(m, base, w, words, Constant(FixedValue(w, pattern))) then 0 else -1
    ensures m.written == old(m.written) + Block(base, w, words)
  {
    hide Passes, Filled, ReadsBack, Width, Pow2, AddressOf;
    ghost var p := Constant(FixedValue(w, pattern));
    NoneFilled(m, base, w, p);
    var val := FixedValue(w, pattern);
    for i := 0 to words
      invariant Filled(m, base, w, i, p)
      invariant m.written == old(m.written) + Block(base, w, i)
    {
      Put(m, base, w, i, val, p);
      BlockGrows(base, w, i);
    }
    ReadsBackIffPasses(m, base, w, words, p);
    NoneRead(m, base, w, p);
    for i := 0 to words
      modifies {}
      invariant ReadsBack(m, base, w, i, p)
    {
      var same := Same(m, base, w, i, val, p);
      if !same {
        PrefixReadsBack(m, base, w, i + 1, words, p);
        return -1;
      }
    }
    r := 0;
  }

  /** The whole test; subtest 0 runs all of the others in order. */
  method TestMem(m: Memory, base: nat, w: nat, words: nat, pattern: nat, subtest: nat) returns (r: int)
    requires Width(w) && 0 < words < ADDRESSES && subtest <= 5
    modifies m
    ensures r == 0 || r == -1
    ensures r == 0 <==>
      forall t: nat :: t <= 5 && (t == subtest || subtest == 0) ==> Good(m, base, w, words, pattern, t)
    ensures m.written == old(m.written) + Block(base, w, Reach(m, base, w, words, subtest))
  {
    hide Passes, AddressOf;
    BlockJoins(base, w, words);
    if subtest <= 1 {
      r := Increment(m, base, w, words);
      assert r == 0 <==> Good(m, base, w, words, pattern, 1);
      if subtest == 1 || r != 0 {
        return;
      }
    }
    if subtest <= 2 {
      r := WalkOnes(m, base, w);
      assert r == 0 <==> Good(m, base, w, words, pattern, 2);
      if subtest == 2 || r != 0 {
        return;
      }
    }
    if subtest <= 3 {
      r := WalkZeros(m, base, w);
      assert r == 0 <==> Good(m, base, w, words, pattern, 3);
      if subtest == 3 || r != 0 {
        return;
      }
    }
    if subtest <= 4 {
      r := InverseAddress(m, base, w, words);
      assert r == 0 <==> Good(m, base, w, words, pattern, 4);
      if subtest == 4 || r != 0 {
        return;
      }
    }
    r := FixedPattern(m, base, w, words, pattern);
    assert r == 0 <==> Good(m, base, w, words, pattern, 5);
  }

  /** A walking test is run: alone, or with all others once the first has passed. */
  ghost predicate Walks(m: Memory, base: nat, w: nat, words: nat, subtest: nat) {
    subtest == 2 || subtest == 3 || (subtest == 0 && Passes(m, base, w, words, Counting(w)))
  }

  /** How many words are written: the walking tests write w words, whatever the
      size of the region. */
  ghost function Reach(m: Memory, base: nat, w: nat, words: nat, subtest: nat): nat {
    if subtest == 2 || subtest == 3 then w
    else if Walks(m, base, w, words, subtest) && words < w then w
    else words
  }

  lemma BlockJoins(base: nat, w: nat, words: nat)
    ensures Block(base, w, words) + Block(base, w, w) == Block(base, w, if words < w then w else words)
  {
    hide AddressOf;
  }

  /** No address outside the region is written exactly when no walking test is run
      or the region has at least w words. */
  lemma StaysInsideExactly(m: Memory, base: nat, w: nat, words: nat, subtest: nat)
    requires Width(w) && 0 < words < ADDRESSES && subtest <= 5
    ensures Block(base, w, Reach(m, base, w, words, subtest)) <= Block(base, w, words)
      <==> !Walks(m, base, w, words, subtest) || words >= w
  {
    hide Passes, AddressOf;
    if Walks(m, base, w, words, subtest) && words < w {
      forall i: nat | i < words ensures AddressOf(base, w, i) != AddressOf(base, w, words) {
        NearAddresses(base, w, i, words);
      }
      assert AddressOf(base, w, words) in Block(base, w, w);
      assert AddressOf(base, w, words) !in Block(base, w, words);
    }
  }

  lemma NearAddresses(base: nat, w: nat, i: nat, j: nat)
    requires Width(w) && i < j < w
    ensures AddressOf(base, w, i) != AddressOf(base, w, j)
  {
    var c: nat := if w == 8 then 1 else if w == 16 then 2 else 4;
    assert w / 8 == c;
    Scaled(c, i, j);
    Distinct(base + c * i, c * (j - i));
  }

  lemma Scaled(c: nat, i: nat, j: nat)
    requires 0 < c <= 4 && i < j < 32
    ensures c * j == c * i + c * (j - i) && 0 < c * (j - i) <= 128
  {}

  lemma Distinct(a: nat, d: nat)
    requires 0 < d < ADDRESSES
    ensures a % ADDRESSES != (a + d) % ADDRESSES
  {}

  /** What makes subtest t return 0. */
  ghost predicate Good(m: Memory, base: nat, w: nat, words: nat, pattern: nat, t: nat)
    requires Width(w)
  {
    if t == 1 then Passes(m, base, w, words, Counting(w))
    else if t == 2 then forall j: nat :: j < w ==> Passes(m, base, w, w, OneHots(j, w))
    else if t == 3 then forall j: nat :: j < w ==> Passes(m, base, w, w, OneColds(j, w))
    else if t == 4 then Passes(m, base, w, words, InvertedAddresses(base, w))
    else if t == 5 then Passes(m, base, w, words, Constant(FixedValue(w, pattern)))
    else true
  }

  // ---------- What the subtests detect ----------

  /** No cell alters what it is given. */
  ghost predicate SoundCells(m: Memory) {
    forall c: nat, v: nat :: m.distort(c, v) == v
  }

  /** No two of the first n words share a cell. */
  ghost predicate Separate(m: Memory, base: nat, w: nat, n: nat) {
    forall i, j :: 0 <= i < j < n ==> Cell(m, base, w, i) != Cell(m, base, w, j)
  }

  lemma ModApart(i: nat, j: nat, n: nat)
    requires i < j < n
    ensures (1 + i) % n != (1 + j) % n
  {
    ModSmall(1 + i, n);
    if j + 1 == n {
      ModOnce(n, n);
    } else {
      ModSmall(1 + j, n);
    }
  }

  lemma SoundCellsExact(m: Memory, base: nat, w: nat, n: nat, p: Pattern)
    requires SoundCells(m)
    ensures Passes(m, base, w, n, p) <==>
      forall i, j :: 0 <= i < n && 0 <= j < n && Cell(m, base, w, i) == Cell(m, base, w, j) ==> p(i) == p(j)
  {}

  /** Words that share a cell lie a multiple of 2^w apart. */
  ghost predicate SharedApart(m: Memory, base: nat, w: nat, n: nat) {
    forall i, j :: 0 <= i < n && 0 <= j < n && Cell(m, base, w, i) == Cell(m, base, w, j)
      ==> i % Pow2(w) == j % Pow2(w)
  }

  lemma SameCount(i: nat, j: nat, n: nat)
    requires n > 0
    ensures (1 + i) % n == (1 + j) % n <==> i % n == j % n
  {
    ModStep(i, n);
    ModStep(j, n);
    if (1 + i) % n == (1 + j) % n && i % n != j % n {
      ModRange(i, n);
      ModRange(j, n);
      if i % n < j % n {
        ModApart(i % n, j % n, n);
      } else {
        ModApart(j % n, i % n, n);
      }
    }
  }

  lemma ModRange(i: nat, n: nat)
    requires n > 0
    ensures 0 <= i % n < n
  {}

  /** On sound cells the incrementing test passes exactly when words that share a
      cell lie a multiple of 2^w apart; a region of more than 2^w words can hide
      such sharing. */
  lemma IncrementExact(m: Memory, base: nat, w: nat, words: nat)
    requires SoundCells(m)
    ensures Passes(m, base, w, words, Counting(w)) <==> SharedApart(m, base, w, words)
  {
    hide Pow2, Passes;
    SoundCellsExact(m, base, w, words, Counting(w));
    forall i: nat, j: nat ensures Counting(w)(i) == Counting(w)(j) <==> i % Pow2(w) == j % Pow2(w) {
      SameCount(i, j, Pow2(w));
    }
  }

  /** So the 32-bit test passes exactly when no two words share a cell. */
  lemma Increment32Exact(m: Memory, base: nat, words: nat)
    requires SoundCells(m) && words < ADDRESSES
    ensures Passes(m, base, 32, words, Counting(32)) <==> Separate(m, base, 32, words)
  {
    hide Pow2, Passes;
    Pow2At32();
    IncrementExact(m, base, 32, words);
    forall i: nat, j: nat | i < words && j < words ensures i % ADDRESSES == j % ADDRESSES <==> i == j {}
    if Separate(m, base, 32, words) {
      OneWordPerCell(m, base, 32, words);
    }
  }

  lemma OneWordPerCell(m: Memory, base: nat, w: nat, n: nat)
    requires Separate(m, base, w, n)
    ensures forall i, j :: 0 <= i < n && 0 <= j < n && Cell(m, base, w, i) == Cell(m, base, w, j) ==> i == j
  {
    forall i, j | 0 <= i < n && 0 <= j < n && i != j ensures Cell(m, base, w, i) != Cell(m, base, w, j) {
      if j < i {
        assert Cell(m, base, w, j) != Cell(m, base, w, i);
      }
    }
  }

  /** The 32-bit inverse address test on sound cells passes exactly when the
      decoder sends different addresses of the region to different cells, for a
      region of any size. */
  lemma InverseAddress32Exact(m: Memory, base: nat, words: nat)
    requires SoundCells(m)
    ensures Passes(m, base, 32, words, InvertedAddresses(base, 32)) <==>
      forall i, j :: 0 <= i < words && 0 <= j < words && Cell(m, base, 32, i) == Cell(m, base, 32, j)
        ==> AddressOf(base, 32, i) == AddressOf(base, 32, j)
  {
    hide Pow2, Passes;
    Pow2At32();
    SoundCellsExact(m, base, 32, words, InvertedAddresses(base, 32));
    assert forall i: nat :: InvertedAddresses(base, 32)(i) == ADDRESSES - 1 - AddressOf(base, 32, i);
  }

  /** After how many words the address, cut to the width of a word, repeats. */
  function Period(w: nat): (p: nat)
    ensures p > 0
  {
    if w == 32 then 0x4000_0000 else if w == 16 then 0x8000 else 0x100
  }

  /** For each width the inverse address test on sound cells passes exactly when
      words that share a cell lie a multiple of the period apart: 256 bytes, 32768
      halfwords or 2^30 words. */
  lemma InverseAddressExact(m: Memory, base: nat, w: nat, words: nat)
    requires SoundCells(m) && Width(w)
    ensures Passes(m, base, w, words, InvertedAddresses(base, w)) <==>
      forall i, j :: 0 <= i < words && 0 <= j < words && Cell(m, base, w, i) == Cell(m, base, w, j)
        ==> i % Period(w) == j % Period(w)
  {
    hide Pow2, Passes, Period;
    SoundCellsExact(m, base, w, words, InvertedAddresses(base, w));
    forall i: nat, j: nat
      ensures InvertedAddresses(base, w)(i) == InvertedAddresses(base, w)(j) <==> i % Period(w) == j % Period(w)
    {
      SameInverse(base, w, i, j);
    }
  }

  lemma SameInverse(base: nat, w: nat, i: nat, j: nat)
    requires Width(w)
    ensures InvertedAddresses(base, w)(i) == InvertedAddresses(base, w)(j) <==> i % Period(w) == j % Period(w)
  {
    hide Pow2;
    Pow2At32();
    if w == 32 {
      Inverse32(base + 4 * i);
      Inverse32(base + 4 * j);
      Scale32(base, i, j);
    } else if w == 16 {
      Inverse16(base + 2 * i);
      Inverse16(base + 2 * j);
      Scale16(base, i, j);
    } else {
      Inverse8(base + i);
      Inverse8(base + j);
      Scale8(base, i, j);
    }
  }

  lemma Inverse8(a: nat)
    ensures (ADDRESSES - 1 - a % ADDRESSES) % 0x100 == 0xFF - a % 0x100
  {}

  lemma Inverse16(a: nat)
    ensures (ADDRESSES - 1 - a % ADDRESSES) % 0x1_0000 == 0xFFFF - a % 0x1_0000
  {}

  lemma Inverse32(a: nat)
    ensures (ADDRESSES - 1 - a % ADDRESSES) % ADDRESSES == ADDRESSES - 1 - a % ADDRESSES
  {}

  lemma Scale8(base: nat, i: nat, j: nat)
    ensures (base + i) % 0x100 == (base + j) % 0x100 <==> i % 0x100 == j % 0x100
  {}

  lemma Scale16(base: nat, i: nat, j: nat)
    ensures (base + 2 * i) % 0x1_0000 == (base + 2 * j) % 0x1_0000 <==> i % 0x8000 == j % 0x8000
  {}

  lemma Scale32(base: nat, i: nat, j: nat)
    ensures (base + 4 * i) % ADDRESSES == (base + 4 * j) % ADDRESSES <==> i % 0x4000_0000 == j % 0x4000_0000
  {}

  /** For each width, up to as many words as its period both tests pass exactly
      when no two words share a cell. */
  lemma BothTestsAgree(m: Memory, base: nat, w: nat, words: nat)
    requires SoundCells(m) && Width(w) && words <= Period(w)
    ensures Passes(m, base, w, words, InvertedAddresses(base, w)) <==> Separate(m, base, w, words)
    ensures Passes(m, base, w, words, Counting(w)) <==> Separate(m, base, w, words)
  {
    hide Passes, Pow2;
    InverseAddressExact(m, base, w, words);
    IncrementExact(m, base, w, words);
    Pow2At32();
    assert words <= Pow2(w);
    forall i: nat | i < words ensures i % Period(w) == i && i % Pow2(w) == i {
      ModSmall(i, Period(w));
      ModSmall(i, Pow2(w));
    }
    if Separate(m, base, w, words) {
      OneWordPerCell(m, base, w, words);
    }
  }

  /** With 8 bits and 257 words neither test sees a decoder that ignores all but
      the low 8 address bits. */
  lemma SharingMissed(m: Memory)
    requires SoundCells(m) && forall a: nat :: m.decode(a) == a % 0x100
    ensures !Separate(m, 0, 8, 257)
    ensures Passes(m, 0, 8, 257, Counting(8)) && Passes(m, 0, 8, 257, InvertedAddresses(0, 8))
  {
    hide Passes, Pow2, Cell;
    Pow2At32();
    IncrementExact(m, 0, 8, 257);
    InverseAddressExact(m, 0, 8, 257);
    forall i: nat | i < 257 ensures Cell(m, 0, 8, i) == i % 0x100 {
      NarrowCell(m, i);
    }
    assert Cell(m, 0, 8, 0) == Cell(m, 0, 8, 256);
  }

  lemma NarrowCell(m: Memory, i: nat)
    requires i < 257 && forall a: nat :: m.decode(a) == a % 0x100
    ensures Cell(m, 0, 8, i) == i % 0x100
  {
    ModSmall(i, ADDRESSES);
  }

  /** The fixed pattern test passes exactly when every cell of the region keeps the
      pattern asked for, or the default one of the width; no decoder fails it. */
  lemma FixedPatternExact(m: Memory, base: nat, w: nat, words: nat, pattern: nat)
    requires Width(w)
    ensures Passes(m, base, w, words, Constant(FixedValue(w, pattern))) <==>
      var v := if pattern != 0 then pattern else if w == 32 then 0xDEADBEEF else if w == 16 then 0xDEAD else 0xA5;
      forall i :: 0 <= i < words ==> m.distort(Cell(m, base, w, i), v) == v
  {}

  // ---------- Walking patterns ----------

  lemma Pow2Apart(i: nat, j: nat)
    requires i != j
    ensures Pow2(i) != Pow2(j)
  {
    if i < j {
      Pow2Monotone(i, j);
    } else {
      Pow2Monotone(j, i);
    }
  }

  /** The pass in which word i holds the pattern of bit b. */
  function Turn(i: nat, b: nat, w: nat): (j: nat)
    requires i < w && b < w
    ensures j < w && (j + i) % w == b
  {
    if i <= b then ModSmall(b, w); b - i else ModOnce(b + w, w); b + w - i
  }

  /** The cells of the first w words return one-hot words unchanged. */
  ghost predicate KeepsHots(m: Memory, base: nat, w: nat) {
    forall i: nat, b: nat :: i < w && b < w ==> m.distort(Cell(m, base, w, i), Pow2(b)) == Pow2(b)
  }

  ghost predicate KeepsColds(m: Memory, base: nat, w: nat) {
    forall i: nat, b: nat :: i < w && b < w ==>
      m.distort(Cell(m, base, w, i), Invert(Pow2(b), w)) == Invert(Pow2(b), w)
  }

  /** Whatever the cells do: the walking ones test passes exactly when the first w
      words have cells of their own and each of these returns every one-hot word
      unchanged. */
  lemma WalkOnesExact(m: Memory, base: nat, w: nat)
    requires Width(w)
    ensures (forall j: nat :: j < w ==> Passes(m, base, w, w, OneHots(j, w)))
      <==> Separate(m, base, w, w) && KeepsHots(m, base, w)
  {
    hide Passes, Separate, KeepsHots;
    if forall j: nat :: j < w ==> Passes(m, base, w, w, OneHots(j, w)) {
      WalkOnesDemands(m, base, w);
    }
    if Separate(m, base, w, w) && KeepsHots(m, base, w) {
      forall j: nat | j < w ensures Passes(m, base, w, w, OneHots(j, w)) {
        WalkOnesSuffices(m, base, w, j);
      }
    }
  }

  lemma WalkOnesSuffices(m: Memory, base: nat, w: nat, j: nat)
    requires j < w && Separate(m, base, w, w)
    requires KeepsHots(m, base, w)
    ensures Passes(m, base, w, w, OneHots(j, w))
  {
    OneWordPerCell(m, base, w, w);
    forall i | 0 <= i < w ensures m.distort(Cell(m, base, w, i), OneHots(j, w)(i)) == OneHots(j, w)(i) {
      var b := (j + i) % w;
      assert OneHots(j, w)(i) == Pow2(b);
    }
  }

  lemma WalkOnesDemands(m: Memory, base: nat, w: nat)
    requires Width(w)
    requires forall j: nat :: j < w ==> Passes(m, base, w, w, OneHots(j, w))
    ensures Separate(m, base, w, w)
    ensures KeepsHots(m, base, w)
  {
    forall i, j | 0 <= i < j < w ensures Cell(m, base, w, i) != Cell(m, base, w, j) {
      assert Passes(m, base, w, w, OneHots(0, w));
      ModSmall(i, w);
      ModSmall(j, w);
      Pow2Apart(i, j);
    }
    forall i: nat, b: nat | i < w && b < w ensures m.distort(Cell(m, base, w, i), Pow2(b)) == Pow2(b) {
      var j := Turn(i, b, w);
      assert Passes(m, base, w, w, OneHots(j, w));
      assert OneHots(j, w)(i) == Pow2(b);
    }
  }

  /** The walking zeros test likewise, for the complements of one-hot words. */
  lemma WalkZerosExact(m: Memory, base: nat, w: nat)
    requires Width(w)
    ensures (forall j: nat :: j < w ==> Passes(m, base, w, w, OneColds(j, w)))
      <==> Separate(m, base, w, w) && KeepsColds(m, base, w)
  {
    hide Passes, Separate, KeepsColds;
    if forall j: nat :: j < w ==> Passes(m, base, w, w, OneColds(j, w)) {
      WalkZerosDemands(m, base, w);
    }
    if Separate(m, base, w, w) && KeepsColds(m, base, w) {
      forall j: nat | j < w ensures Passes(m, base, w, w, OneColds(j, w)) {
        WalkZerosSuffices(m, base, w, j);
      }
    }
  }

  lemma WalkZerosSuffices(m: Memory, base: nat, w: nat, j: nat)
    requires j < w && Separate(m, base, w, w)
    requires KeepsColds(m, base, w)
    ensures Passes(m, base, w, w, OneColds(j, w))
  {
    OneWordPerCell(m, base, w, w);
    forall i | 0 <= i < w ensures m.distort(Cell(m, base, w, i), OneColds(j, w)(i)) == OneColds(j, w)(i) {
      var b := (j + i) % w;
      assert OneColds(j, w)(i) == Invert(Pow2(b), w);
    }
  }

  lemma WalkZerosDemands(m: Memory, base: nat, w: nat)
    requires Width(w)
    requires forall j: nat :: j < w ==> Passes(m, base, w, w, OneColds(j, w))
    ensures Separate(m, base, w, w)
    ensures KeepsColds(m, base, w)
  {
    forall i, j | 0 <= i < j < w ensures Cell(m, base, w, i) != Cell(m, base, w, j) {
      assert Passes(m, base, w, w, OneColds(0, w));
      ModSmall(i, w);
      ModSmall(j, w);
      Pow2Apart(i, j);
      InvertTwice(i, w);
      InvertTwice(j, w);
    }
    forall i: nat, b: nat | i < w && b < w
      ensures m.distort(Cell(m, base, w, i), Invert(Pow2(b), w)) == Invert(Pow2(b), w)
    {
      var j := Turn(i, b, w);
      assert Passes(m, base, w, w, OneColds(j, w));
      assert OneColds(j, w)(i) == Invert(Pow2(b), w);
    }
  }


  // ---------- Stuck bits ----------

  function Bit(v: nat, b: nat): nat {
    v / Pow2(b) % 2
  }

  /** Cell c reads every word with bit b as x; its other bits may do anything. */
  ghost predicate StuckAt(m: Memory, c: nat, b: nat, x: nat) {
    forall v: nat :: Bit(m.distort(c, v), b) == x
  }

  lemma BitOfOneHot(b: nat)
    ensures Bit(Pow2(b), b) == 1 && (b > 0 ==> Bit(Pow2(0), b) == 0) && Bit(Pow2(1), 0) == 0
  {
    ModOnce(Pow2(b), Pow2(b));
    if b > 0 {
      ModSmall(1, Pow2(b));
    }
  }

  /** Pow2(w) as a multiple of Pow2(b) with an even factor. */
  lemma SplitAt(b: nat, w: nat) returns (q: nat)
    requires b < w
    ensures Pow2(w) == q * Pow2(b) && q >= 2 && q % 2 == 0
  {
    q := Pow2(w - b);
    Pow2Sum(w - b, b);
    assert q == 2 * Pow2(w - b - 1);
  }

  lemma ColdOwnBit(b: nat, w: nat)
    requires b < w
    ensures Bit(Invert(Pow2(b), w), b) == 0
  {
    hide Pow2;
    var p := Pow2(b);
    var q := SplitAt(b, w);
    InvertTwice(b, w);
    Expand(q, p);
    ModUnique(Invert(p, w), p, q - 2, p - 1);
  }

  lemma ColdOtherBit(b: nat, w: nat)
    requires 0 < b < w
    ensures Bit(Invert(Pow2(0), w), b) == 1
  {
    var p := Pow2(b);
    assert p >= 2 && Pow2(0) == 1;
    hide Pow2;
    var q := SplitAt(b, w);
    InvertTwice(0, w);
    Expand(q, p);
    ModUnique(Invert(Pow2(0), w), p, q - 1, p - 2);
  }

  lemma BitOfOneCold(b: nat, w: nat)
    requires 1 < w && b < w
    ensures Bit(Invert(Pow2(b), w), b) == 0
    ensures b > 0 ==> Bit(Invert(Pow2(0), w), b) == 1
    ensures Bit(Invert(Pow2(1), w), 0) == 1
  {
    hide Pow2, Bit, Invert;
    ColdOwnBit(b, w);
    if b > 0 {
      ColdOtherBit(b, w);
    }
    ColdLowBit(w);
  }

  lemma ColdLowBit(w: nat)
    requires 1 < w
    ensures Bit(Invert(Pow2(1), w), 0) == 1
  {
    hide Invert;
    InvertTwice(1, w);
    LowBit(Invert(Pow2(1), w), Pow2(w - 1));
  }

  lemma LowBit(v: nat, half: nat)
    requires v == 2 * half - 3
    ensures Bit(v, 0) == 1
  {}

  lemma Expand(q: int, p: int)
    ensures (q - 2) * p == q * p - 2 * p && (q - 1) * p == q * p - p
  {}

  /** Both walking tests fail when any single bit of any of the first w words is
      stuck, whatever the decoder, the other cells and its other bits do. */
  lemma StuckBitDetected(m: Memory, base: nat, w: nat, i: nat, b: nat)
    requires Width(w) && i < w && b < w
    requires StuckAt(m, Cell(m, base, w, i), b, 0) || StuckAt(m, Cell(m, base, w, i), b, 1)
    ensures !(forall j: nat :: j < w ==> Passes(m, base, w, w, OneHots(j, w)))
    ensures !(forall j: nat :: j < w ==> Passes(m, base, w, w, OneColds(j, w)))
  {
    hide Passes, Separate, Pow2, Bit, Invert;
    WalkOnesExact(m, base, w);
    WalkZerosExact(m, base, w);
    BitOfOneHot(b);
    BitOfOneCold(b, w);
    var c := Cell(m, base, w, i);
    var other := if b > 0 then 0 else 1;
    if StuckAt(m, c, b, 0) {
      assert Bit(m.distort(c, Pow2(b)), b) == 0;
      assert Bit(m.distort(c, Invert(Pow2(other), w)), b) == 0;
    } else {
      assert Bit(m.distort(c, Pow2(other)), b) == 1;
      assert Bit(m.distort(c, Invert(Pow2(b), w)), b) == 1;
    }
  }

  /** On sound cells they pass exactly when the first w words are separate. */
  lemma WalksOnSoundCells(m: Memory, base: nat, w: nat)
    requires Width(w) && SoundCells(m)
    ensures (forall j: nat :: j < w ==> Passes(m, base, w, w, OneHots(j, w))) <==> Separate(m, base, w, w)
    ensures (forall j: nat :: j < w ==> Passes(m, base, w, w, OneColds(j, w))) <==> Separate(m, base, w, w)
  {
    hide Passes, Separate;
    WalkOnesExact(m, base, w);
    WalkZerosExact(m, base, w);
  }
}
