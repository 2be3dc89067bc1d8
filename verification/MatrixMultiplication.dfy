// mat_mult: matrices of 32-bit words held in simulated memory, read and written through
// get_data and put_data.
module MatrixMultiplication {
  import opened Bytes
  import opened PageTables
  import opened Allocation
  import opened PhysicalMemory
  import opened VirtualMemorySystem

  ghost predicate Mapped(u: map<nat, Byte>, a: nat, n: nat) {
    forall b :: a <= b < a + n ==> b in u
  }

  // The word the user reads at address a.
  ghost function UserWord(u: map<nat, Byte>, a: nat): (w: nat)
    requires Mapped(u, a, 4)
    ensures w < WORD_LIMIT
  {
    Word([u[a], u[a + 1], u[a + 2], u[a + 3]], 0)
  }

  // The position of element (i, j), and the bytes of a whole matrix.
  function Index(size: nat, i: nat, j: nat): nat {
    i * size + j
  }

  function Area(size: nat): nat {
    4 * (size * size)
  }

  lemma IndexBound(size: nat, i: nat, j: nat)
    requires i < size && j < size
    ensures 4 * Index(size, i, j) + 4 <= Area(size)
  {
    RowsApart(size, i, size);
  }

  lemma RowsApart(size: nat, i: nat, x: nat)
    ensures i < x ==> i * size + size <= x * size
  {
    if i < x {
      assert (i + 1) * size <= x * size;
    }
  }

  lemma IndexInjective(size: nat, i: nat, j: nat, x: nat, y: nat)
    requires j < size && y < size && Index(size, i, j) == Index(size, x, y)
    ensures i == x && j == y
  {
    RowsApart(size, i, x);
    RowsApart(size, x, i);
  }

  ghost function Element(u: map<nat, Byte>, base: nat, size: nat, i: nat, j: nat): nat
    requires Mapped(u, base, Area(size)) && i < size && j < size
  {
    IndexBound(size, i, j);
    UserWord(u, base + 4 * Index(size, i, j))
  }

  // The sum of the first k products of row i and column j, over the integers.
  ghost function Dot(u: map<nat, Byte>, m1: nat, m2: nat, size: nat, i: nat, j: nat, k: nat): int
    requires Mapped(u, m1, Area(size)) && Mapped(u, m2, Area(size)) && i < size && j < size && k <= size
  {
    if k == 0 then 0
    else Dot(u, m1, m2, size, i, j, k - 1) + Element(u, m1, size, i, k - 1) * Element(u, m2, size, k - 1, j)
  }

  // Accumulating modulo 2^32 is the sum modulo 2^32.
  lemma AccumulateMod(sum: int, product: int)
    ensures (sum % WORD_LIMIT + product % WORD_LIMIT) % WORD_LIMIT == (sum + product) % WORD_LIMIT
  {
  }

  // Nothing has changed but the n bytes from a on.
  ghost predicate ChangedOnly(u0: map<nat, Byte>, u: map<nat, Byte>, a: nat, n: nat) {
    u.Keys == u0.Keys && forall b :: b in u0 && !(a <= b < a + n) ==> u[b] == u0[b]
  }

  ghost predicate IsProduct(u0: map<nat, Byte>, u: map<nat, Byte>, m1: nat, m2: nat, answer: nat, size: nat, x: nat,
      y: nat)
    requires Mapped(u0, m1, Area(size)) && Mapped(u0, m2, Area(size)) && Mapped(u, answer, Area(size))
    requires x < size && y < size
  {
    Element(u, answer, size, x, y) == Dot(u0, m1, m2, size, x, y, size) % WORD_LIMIT
  }

  // What mat_mult establishes, from memory u0 to memory u.
  ghost predicate Multiplied(u0: map<nat, Byte>, u: map<nat, Byte>, m1: nat, m2: nat, answer: nat, size: nat) {
    && Mapped(u0, m1, Area(size)) && Mapped(u0, m2, Area(size)) && Mapped(u, answer, Area(size))
    && forall i: nat, j: nat :: i < size && j < size ==> IsProduct(u0, u, m1, m2, answer, size, i, j)
  }

  // The first n elements of the answer are those of the product.
  ghost predicate Done(u0: map<nat, Byte>, u: map<nat, Byte>, m1: nat, m2: nat, answer: nat, size: nat, n: nat)
    requires Mapped(u0, m1, Area(size)) && Mapped(u0, m2, Area(size)) && Mapped(u, answer, Area(size))
  {
    forall x: nat, y: nat :: x < size && y < size && Index(size, x, y) < n ==>
        IsProduct(u0, u, m1, m2, answer, size, x, y)
  }

  lemma StillMapped(u0: map<nat, Byte>, u: map<nat, Byte>, base: nat, n: nat)
    requires u.Keys == u0.Keys && Mapped(u0, base, n)
    ensures Mapped(u, base, n)
  {
  }

  // A matrix apart from the answer is read as it was at the start.
  lemma InputKept(u0: map<nat, Byte>, u: map<nat, Byte>, answer: nat, size: nat, base: nat, i: nat, j: nat)
    requires ChangedOnly(u0, u, answer, Area(size)) && Mapped(u0, base, Area(size))
    requires base + Area(size) <= answer || answer + Area(size) <= base
    requires i < size && j < size
    ensures Mapped(u, base, Area(size)) && Element(u, base, size, i, j) == Element(u0, base, size, i, j)
  {
    hide Area, Index;
    IndexBound(size, i, j);
    StillMapped(u0, u, base, Area(size));
    var a := base + 4 * Index(size, i, j);
    assert u[a] == u0[a] && u[a + 1] == u0[a + 1] && u[a + 2] == u0[a + 2] && u[a + 3] == u0[a + 3];
  }

  lemma ElementWritten(u: map<nat, Byte>, a: nat, w: nat, b: nat)
    requires w < WORD_LIMIT && Mapped(u, a, 4) && Mapped(u, b, 4) && (a == b || a + 4 <= b || b + 4 <= a)
    ensures var u' := WriteUser(u, a, WordBytes(w));
            Mapped(u', b, 4) && UserWord(u', b) == if a == b then w else UserWord(u, b)
  {
    WordOfWordBytes(w);
    var bs := WordBytes(w);
    assert a == b ==> [bs[0], bs[1], bs[2], bs[3]] == bs;
  }

  lemma WordChangesOnly(u0: map<nat, Byte>, u: map<nat, Byte>, answer: nat, area: nat, a: nat, w: nat)
    requires ChangedOnly(u0, u, answer, area) && answer <= a && a + 4 <= answer + area && w < WORD_LIMIT
    ensures ChangedOnly(u0, WriteUser(u, a, WordBytes(w)), answer, area)
  {
  }

  // Writing the next element of the product completes it and keeps the ones before it.
  lemma DoneOneMore(u0: map<nat, Byte>, u: map<nat, Byte>, m1: nat, m2: nat, answer: nat, size: nat, i: nat, j: nat,
      w: nat)
    requires Mapped(u0, m1, Area(size)) && Mapped(u0, m2, Area(size)) && Mapped(u, answer, Area(size))
    requires i < size && j < size && w < WORD_LIMIT
    requires Done(u0, u, m1, m2, answer, size, Index(size, i, j))
    requires w == Dot(u0, m1, m2, size, i, j, size) % WORD_LIMIT
    ensures var u' := WriteUser(u, answer + 4 * Index(size, i, j), WordBytes(w));
            Mapped(u', answer, Area(size)) && Done(u0, u', m1, m2, answer, size, Index(size, i, j) + 1)
  {
    hide Area, Index, UserWord, Dot;
    var a := answer + 4 * Index(size, i, j);
    var u' := WriteUser(u, a, WordBytes(w));
    IndexBound(size, i, j);
    forall x: nat, y: nat | x < size && y < size && Index(size, x, y) < Index(size, i, j) + 1
      ensures IsProduct(u0, u', m1, m2, answer, size, x, y)
    {
      IndexBound(size, x, y);
      ElementWritten(u, a, w, answer + 4 * Index(size, x, y));
      if Index(size, x, y) == Index(size, i, j) {
        IndexInjective(size, x, y, i, j);
      } else {
        assert IsProduct(u0, u, m1, m2, answer, size, x, y);
      }
    }
  }

  lemma {:induction false} PrefixOfMapped(vm: VirtualMemory, a: nat, n: nat)
    requires vm.Allocated() && Mapped(vm.User(), a, n)
    ensures MappedPrefix(vm.Core().pages, a, n) == n
    decreases n
  {
    if n > 0 {
      assert a in vm.User();
      PrefixOfMapped(vm, a + 1, n - 1);
    }
  }

  // get_data of one uint32_t
  method ReadWord(vm: VirtualMemory, a: nat) returns (w: nat)
    requires vm.Valid() && a < ADDRESSES && Mapped(vm.User(), a, 4)
    modifies vm`tlbLookups, vm`tlbMisses, vm.tlb, vm.tlb.entries
    ensures vm.Valid() && vm.Core() == old(vm.Core()) && vm.User() == old(vm.User())
    ensures w == UserWord(vm.User(), a)
  {
    hide Owned, NoEmptyTable, PhysicalMemory.User;
    PrefixOfMapped(vm, a, 4);
    var buffer := new Byte[4];
    vm.GetData(a, buffer, 4);
    assert buffer[..][..4] == buffer[..];
    w := Word(buffer[..], 0);
  }

  // put_data of one uint32_t
  method WriteWord(vm: VirtualMemory, a: nat, w: nat)
    requires vm.Valid() && a < ADDRESSES && Mapped(vm.User(), a, 4) && w < WORD_LIMIT
    modifies vm`tlbLookups, vm`tlbMisses, vm.physMem, vm.tlb, vm.tlb.entries
    ensures vm.Valid() && vm.Core() == old(vm.Core())
    ensures vm.User() == WriteUser(old(vm.User()), a, WordBytes(w))
  {
    hide Owned, NoEmptyTable, PhysicalMemory.User, WriteUser;
    PrefixOfMapped(vm, a, 4);
    var bytes := WordBytes(w);
    var buffer := new Byte[4](k requires 0 <= k < 4 => bytes[k]);
    assert buffer[..][..4] == bytes;
    var _ := vm.PutData(a, buffer, 4);
  }

  // add_offset32 for element (i, j), in 32-bit arithmetic
  function AddressOf(base: nat, size: nat, i: nat, j: nat): nat
    requires base < ADDRESSES
  {
    Add32(base, 4 * Index(size, i, j) % ADDRESSES)
  }

  // The address arithmetic does not wrap inside a mapped region.
  lemma AddressInRegion(vm: VirtualMemory, base: nat, size: nat, i: nat, j: nat)
    requires vm.Allocated() && base < ADDRESSES && Mapped(vm.User(), base, Area(size)) && i < size && j < size
    ensures var a := AddressOf(base, size, i, j);
            && a == base + 4 * Index(size, i, j) && a + 4 <= ADDRESSES && a + 4 <= base + Area(size)
            && Mapped(vm.User(), a, 4)
  {
    hide Area, Index, PhysicalMemory.User;
    IndexBound(size, i, j);
    BelowTop(vm, base + 4 * Index(size, i, j) + 3);
  }

  lemma BelowTop(vm: VirtualMemory, a: nat)
    requires vm.Allocated() && a in vm.User()
    ensures a < ADDRESSES
  {
  }

  // The body of the two outer loops: one element of the product.
  method DotProduct(vm: VirtualMemory, ghost u0: map<nat, Byte>, mat1: nat, mat2: nat, size: nat, ghost answer: nat,
      i: nat, j: nat)
      returns (c: nat)
    requires vm.Valid() && mat1 < ADDRESSES && mat2 < ADDRESSES && i < size && j < size
    requires Mapped(u0, mat1, Area(size)) && Mapped(u0, mat2, Area(size))
    requires ChangedOnly(u0, vm.User(), answer, Area(size))
    requires mat1 + Area(size) <= answer || answer + Area(size) <= mat1
    requires mat2 + Area(size) <= answer || answer + Area(size) <= mat2
    modifies vm`tlbLookups, vm`tlbMisses, vm.tlb, vm.tlb.entries
    ensures vm.Valid() && vm.Core() == old(vm.Core()) && vm.User() == old(vm.User())
    ensures c == Dot(u0, mat1, mat2, size, i, j, size) % WORD_LIMIT
  {
    hide Owned, NoEmptyTable, PhysicalMemory.User, UserWord, Area, Index, Mapped, ChangedOnly, AddressOf, TablesApart,
      Dir, Pages;
    ghost var u := vm.User();
    c := 0;
    for k := 0 to size
      invariant vm.Valid() && vm.Core() == old(vm.Core()) && vm.User() == u
      invariant c == Dot(u0, mat1, mat2, size, i, j, k) % WORD_LIMIT
    {
      InputKept(u0, u, answer, size, mat1, i, k);
      InputKept(u0, u, answer, size, mat2, k, j);
      AddressInRegion(vm, mat1, size, i, k);
      AddressInRegion(vm, mat2, size, k, j);
      var a := ReadWord(vm, AddressOf(mat1, size, i, k));
      var b := ReadWord(vm, AddressOf(mat2, size, k, j));
      AccumulateMod(Dot(u0, mat1, mat2, size, i, j, k), a * b);
      c := (c + a * b % WORD_LIMIT) % WORD_LIMIT;
    }
  }

  lemma NothingDone(u0: map<nat, Byte>, m1: nat, m2: nat, answer: nat, size: nat)
    requires Mapped(u0, m1, Area(size)) && Mapped(u0, m2, Area(size)) && Mapped(u0, answer, Area(size))
    ensures ChangedOnly(u0, u0, answer, Area(size)) && Done(u0, u0, m1, m2, answer, size, Index(size, 0, 0))
  {
  }

  lemma AllDone(u0: map<nat, Byte>, u: map<nat, Byte>, m1: nat, m2: nat, answer: nat, size: nat)
    requires Mapped(u0, m1, Area(size)) && Mapped(u0, m2, Area(size)) && Mapped(u, answer, Area(size))
    requires Done(u0, u, m1, m2, answer, size, Index(size, size, 0))
    ensures forall x: nat, y: nat :: x < size && y < size ==> IsProduct(u0, u, m1, m2, answer, size, x, y)
  {
    hide IsProduct;
    forall x: nat, y: nat | x < size && y < size
      ensures Index(size, x, y) < Index(size, size, 0)
    {
      RowsApart(size, x, size);
    }
  }

  lemma NextIndex(size: nat, i: nat, j: nat)
    ensures Index(size, i, j) + 1 == Index(size, i, j + 1)
    ensures Index(size, i, size) == Index(size, i + 1, 0)
  {
  }

  // One element of the answer, computed and stored.
  method StoreElement(vm: VirtualMemory, ghost u0: map<nat, Byte>, mat1: nat, mat2: nat, size: nat, answer: nat, i: nat,
      j: nat)
    requires vm.Valid() && mat1 < ADDRESSES && mat2 < ADDRESSES && answer < ADDRESSES && i < size && j < size
    requires Mapped(u0, mat1, Area(size)) && Mapped(u0, mat2, Area(size)) && Mapped(vm.User(), answer, Area(size))
    requires ChangedOnly(u0, vm.User(), answer, Area(size))
    requires mat1 + Area(size) <= answer || answer + Area(size) <= mat1
    requires mat2 + Area(size) <= answer || answer + Area(size) <= mat2
    requires Done(u0, vm.User(), mat1, mat2, answer, size, Index(size, i, j))
    modifies vm`tlbLookups, vm`tlbMisses, vm.physMem, vm.tlb, vm.tlb.entries
    ensures vm.Valid() && vm.Core() == old(vm.Core())
    ensures ChangedOnly(u0, vm.User(), answer, Area(size)) && Mapped(vm.User(), answer, Area(size))
    ensures Done(u0, vm.User(), mat1, mat2, answer, size, Index(size, i, j + 1))
  {
    hide Owned, NoEmptyTable, PhysicalMemory.User, WriteUser, Area, Index, Mapped, Done, ChangedOnly, Dot, IsProduct,
      AddressOf;
    ghost var u := vm.User();
    var sum := DotProduct(vm, u0, mat1, mat2, size, answer, i, j);
    var cell := AddressOf(answer, size, i, j);
    AddressInRegion(vm, answer, size, i, j);
    DoneOneMore(u0, u, mat1, mat2, answer, size, i, j, sum);
    WordChangesOnly(u0, u, answer, Area(size), cell, sum);
    WriteWord(vm, cell, sum);
    NextIndex(size, i, j);
  }

  // mat_mult, for regions that are mapped and an answer that overlaps neither input: the answer
  // becomes the matrix product modulo 2^32, and no other byte changes.
  method MatMult(vm: VirtualMemory, mat1: nat, mat2: nat, size: int, answer: nat)
    requires vm.Valid() && mat1 < ADDRESSES && mat2 < ADDRESSES && answer < ADDRESSES
    requires size > 0 ==>
      && Mapped(vm.User(), mat1, Area(size)) && Mapped(vm.User(), mat2, Area(size))
      && Mapped(vm.User(), answer, Area(size))
      && (mat1 + Area(size) <= answer || answer + Area(size) <= mat1)
      && (mat2 + Area(size) <= answer || answer + Area(size) <= mat2)
    modifies vm`tlbLookups, vm`tlbMisses, vm.physMem, vm.tlb, vm.tlb.entries
    ensures vm.Valid() && vm.Core() == old(vm.Core())
    ensures size <= 0 ==> vm.User() == old(vm.User())
    ensures size > 0 ==>
      && ChangedOnly(old(vm.User()), vm.User(), answer, Area(size))
      && Multiplied(old(vm.User()), vm.User(), mat1, mat2, answer, size)
  {
    hide Owned, NoEmptyTable, PhysicalMemory.User, WriteUser, Area, Index, Mapped, Done, ChangedOnly, Dot, Element,
      IsProduct,
         UserWord, AddressOf;
    if size <= 0 {
      return;
    }
    ghost var c, u0 := vm.Core(), vm.User();
    NothingDone(u0, mat1, mat2, answer, size);
    var i := 0;
    while i < size
      invariant 0 <= i <= size && vm.Valid() && vm.Core() == c
      invariant ChangedOnly(u0, vm.User(), answer, Area(size)) && Mapped(vm.User(), answer, Area(size))
      invariant Done(u0, vm.User(), mat1, mat2, answer, size, Index(size, i, 0))
    {
      var j := 0;
      while j < size
        invariant 0 <= j <= size && vm.Valid() && vm.Core() == c
        invariant ChangedOnly(u0, vm.User(), answer, Area(size)) && Mapped(vm.User(), answer, Area(size))
        invariant Done(u0, vm.User(), mat1, mat2, answer, size, Index(size, i, j))
      {
        StoreElement(vm, u0, mat1, mat2, size, answer, i, j);
        j := j + 1;
      }
      NextIndex(size, i, 0);
      i := i + 1;
    }
    AllDone(u0, vm.User(), mat1, mat2, answer, size);
  }

  // ----- what the product is -----

  // The element of row i and column j.
  ghost function At(u: map<nat, Byte>, base: nat, size: nat, i: nat, j: nat): (w: nat)
    requires Mapped(u, base, Area(size)) && i < size && j < size
    ensures w < WORD_LIMIT
  {
    IndexBound(size, i, j);
    UserWord(u, base + 4 * (i * size + j))
  }

  lemma AnswerAt(u0: map<nat, Byte>, u: map<nat, Byte>, m1: nat, m2: nat, answer: nat, size: nat, i: nat, j: nat)
    requires Multiplied(u0, u, m1, m2, answer, size) && i < size && j < size
    ensures At(u, answer, size, i, j) == Dot(u0, m1, m2, size, i, j, size) % WORD_LIMIT
  {
    assert IsProduct(u0, u, m1, m2, answer, size, i, j);
  }

  lemma DotStep(u: map<nat, Byte>, m1: nat, m2: nat, size: nat, i: nat, j: nat, k: nat)
    requires Mapped(u, m1, Area(size)) && Mapped(u, m2, Area(size)) && i < size && j < size && 0 < k <= size
    ensures Dot(u, m1, m2, size, i, j, k) ==
              Dot(u, m1, m2, size, i, j, k - 1) + At(u, m1, size, i, k - 1) * At(u, m2, size, k - 1, j)
  {
    hide UserWord, Mapped;
    assert Element(u, m1, size, i, k - 1) == At(u, m1, size, i, k - 1);
    assert Element(u, m2, size, k - 1, j) == At(u, m2, size, k - 1, j);
  }

  lemma NoTerms(u: map<nat, Byte>, m1: nat, m2: nat, size: nat, i: nat, j: nat)
    requires Mapped(u, m1, Area(size)) && Mapped(u, m2, Area(size)) && i < size && j < size
    ensures Dot(u, m1, m2, size, i, j, 0) == 0
  {
    hide Mapped, Area;
  }

  // One product in the sum, the others being zero.
  lemma {:induction false} OneTerm(u: map<nat, Byte>, m1: nat, m2: nat, size: nat, i: nat, j: nat, k: nat, p: nat)
    requires Mapped(u, m1, Area(size)) && Mapped(u, m2, Area(size)) && i < size && j < size && k <= size && p < size
    requires forall l: nat :: l < size && l != p ==> At(u, m1, size, i, l) == 0 || At(u, m2, size, l, j) == 0
    ensures Dot(u, m1, m2, size, i, j, k) == if p < k then At(u, m1, size, i, p) * At(u, m2, size, p, j) else 0
    decreases k
  {
    hide At, Dot, Mapped, Area;
    if k == 0 {
      NoTerms(u, m1, m2, size, i, j);
    } else {
      OneTerm(u, m1, m2, size, i, j, k - 1, p);
      DotStep(u, m1, m2, size, i, j, k);
    }
  }

  ghost predicate IsIdentity(u: map<nat, Byte>, base: nat, size: nat) {
    && Mapped(u, base, Area(size))
    && forall i: nat, j: nat :: i < size && j < size ==> At(u, base, size, i, j) == if i == j then 1 else 0
  }

  // The identity on the left leaves the second matrix.
  lemma IdentityLeft(u0: map<nat, Byte>, u: map<nat, Byte>, m1: nat, m2: nat, answer: nat, size: nat, i: nat, j: nat)
    requires Multiplied(u0, u, m1, m2, answer, size) && IsIdentity(u0, m1, size) && i < size && j < size
    ensures At(u, answer, size, i, j) == At(u0, m2, size, i, j)
  {
    hide At, Dot, IsProduct;
    AnswerAt(u0, u, m1, m2, answer, size, i, j);
    OneTerm(u0, m1, m2, size, i, j, size, i);
  }

  // The identity on the right leaves the first matrix.
  lemma IdentityRight(u0: map<nat, Byte>, u: map<nat, Byte>, m1: nat, m2: nat, answer: nat, size: nat, i: nat, j: nat)
    requires Multiplied(u0, u, m1, m2, answer, size) && IsIdentity(u0, m2, size) && i < size && j < size
    ensures At(u, answer, size, i, j) == At(u0, m1, size, i, j)
  {
    hide At, Dot, IsProduct;
    AnswerAt(u0, u, m1, m2, answer, size, i, j);
    OneTerm(u0, m1, m2, size, i, j, size, j);
  }

  // A second matrix with a single 1, at (p, q), moves column p of the first to column q.
  lemma UnitRight(u0: map<nat, Byte>, u: map<nat, Byte>, m1: nat, m2: nat, answer: nat, size: nat, p: nat, q: nat,
      i: nat, j: nat)
    requires Multiplied(u0, u, m1, m2, answer, size) && p < size && q < size && i < size && j < size
    requires forall k: nat, l: nat :: k < size && l < size ==>
        At(u0, m2, size, k, l) == if k == p && l == q then 1 else 0
    ensures At(u, answer, size, i, j) == if j == q then At(u0, m1, size, i, p) else 0
  {
    hide At, Dot, IsProduct;
    AnswerAt(u0, u, m1, m2, answer, size, i, j);
    OneTerm(u0, m1, m2, size, i, j, size, p);
  }

  lemma TimesMod(x: nat, y: nat)
    ensures x * (y % WORD_LIMIT) % WORD_LIMIT == x * y % WORD_LIMIT
  {
    var q := y / WORD_LIMIT;
    assert y == WORD_LIMIT * q + y % WORD_LIMIT;
    assert x * y == WORD_LIMIT * (x * q) + x * (y % WORD_LIMIT);
    ModOfMultiple(x * q, x * (y % WORD_LIMIT));
  }

  lemma ModOfMultiple(q: nat, r: nat)
    ensures (WORD_LIMIT * q + r) % WORD_LIMIT == r % WORD_LIMIT
  {
  }

  // The second matrices of u and v add up to that of w; the first matrix is the same.
  ghost predicate AddsUp(u: map<nat, Byte>, v: map<nat, Byte>, w: map<nat, Byte>, m1: nat, m2: nat, size: nat) {
    && Mapped(u, m1, Area(size)) && Mapped(v, m1, Area(size)) && Mapped(w, m1, Area(size))
    && Mapped(u, m2, Area(size)) && Mapped(v, m2, Area(size)) && Mapped(w, m2, Area(size))
    && forall i: nat, j: nat :: i < size && j < size ==>
         && At(u, m1, size, i, j) == At(v, m1, size, i, j) == At(w, m1, size, i, j)
         && At(w, m2, size, i, j) == (At(u, m2, size, i, j) + At(v, m2, size, i, j)) % WORD_LIMIT
  }

  lemma {:induction false} DotAdds(u: map<nat, Byte>, v: map<nat, Byte>, w: map<nat, Byte>, m1: nat, m2: nat,
      size: nat, i: nat, j: nat, k: nat)
    requires AddsUp(u, v, w, m1, m2, size) && i < size && j < size && k <= size
    ensures Dot(w, m1, m2, size, i, j, k) % WORD_LIMIT ==
              (Dot(u, m1, m2, size, i, j, k) + Dot(v, m1, m2, size, i, j, k)) % WORD_LIMIT
    decreases k
  {
    hide At, Dot, Mapped, Area;
    if k == 0 {
      NoTerms(u, m1, m2, size, i, j);
      NoTerms(v, m1, m2, size, i, j);
      NoTerms(w, m1, m2, size, i, j);
    } else {
      DotAdds(u, v, w, m1, m2, size, i, j, k - 1);
      DotStep(u, m1, m2, size, i, j, k);
      DotStep(v, m1, m2, size, i, j, k);
      DotStep(w, m1, m2, size, i, j, k);
      TermAdds(Dot(w, m1, m2, size, i, j, k - 1), Dot(u, m1, m2, size, i, j, k - 1),
          Dot(v, m1, m2, size, i, j, k - 1),
          At(w, m1, size, i, k - 1), At(u, m2, size, k - 1, j), At(v, m2, size, k - 1, j));
    }
  }

  lemma TermAdds(dw: int, du: int, dv: int, a: nat, b: nat, c: nat)
    requires dw % WORD_LIMIT == (du + dv) % WORD_LIMIT
    ensures (dw + a * ((b + c) % WORD_LIMIT)) % WORD_LIMIT == (du + a * b + (dv + a * c)) % WORD_LIMIT
  {
    TimesMod(a, b + c);
    AccumulateMod(dw, a * ((b + c) % WORD_LIMIT));
    AccumulateMod(du + dv, a * (b + c));
    assert a * (b + c) == a * b + a * c;
  }

  // The product is additive in the second matrix, modulo 2^32. With UnitRight this fixes it.
  lemma ProductAdds(u0: map<nat, Byte>, u: map<nat, Byte>, v0: map<nat, Byte>, v: map<nat, Byte>,
      w0: map<nat, Byte>, w: map<nat, Byte>, m1: nat, m2: nat, answer: nat, size: nat, i: nat, j: nat)
    requires Multiplied(u0, u, m1, m2, answer, size) && Multiplied(v0, v, m1, m2, answer, size)
    requires Multiplied(w0, w, m1, m2, answer, size) && AddsUp(u0, v0, w0, m1, m2, size) && i < size && j < size
    ensures At(w, answer, size, i, j) == (At(u, answer, size, i, j) + At(v, answer, size, i, j)) % WORD_LIMIT
  {
    hide At, Dot, IsProduct, AddsUp;
    AnswerAt(u0, u, m1, m2, answer, size, i, j);
    AnswerAt(v0, v, m1, m2, answer, size, i, j);
    AnswerAt(w0, w, m1, m2, answer, size, i, j);
    DotAdds(u0, v0, w0, m1, m2, size, i, j, size);
    AccumulateMod(Dot(u0, m1, m2, size, i, j, size), Dot(v0, m1, m2, size, i, j, size));
  }
}
