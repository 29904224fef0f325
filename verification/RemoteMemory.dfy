/**
  Reading a traced process's memory with process_vm_readv. Memory is mapped by
  whole pages, and a transfer stops at the first iovec that is not readable in
  full, so a read that may cross a page is issued as two iovecs.
 */
module RemoteMemory {
  import opened Base

  const PAGE: nat := 4096

  datatype Mem = Mem(pages: set<nat>, content: U64 -> Byte)
  datatype IoVec = IoVec(base: U64, len: nat)

  function Addr(base: U64, k: nat): U64 { (base + k) % TWO_64 }

  predicate Readable(m: Mem, a: U64) { a / PAGE in m.pages }

  predicate AllReadable(m: Mem, v: IoVec) {
    forall k :: 0 <= k < v.len ==> Readable(m, Addr(v.base, k))
  }

  function Bytes(m: Mem, v: IoVec): seq<Byte> {
    seq<Byte>(v.len, k requires 0 <= k < v.len => m.content(Addr(v.base, k)))
  }

  /** What process_vm_readv transfers. */
  function Transferred(m: Mem, vs: seq<IoVec>): seq<Byte>
    decreases |vs|
  {
    if vs == [] || !AllReadable(m, vs[0]) then [] else Bytes(m, vs[0]) + Transferred(m, vs[1..])
  }

  /** The reference: byte by byte from `value`, up to the first unmapped address. */
  function Prefix(m: Mem, value: U64, n: nat): seq<Byte>
    decreases n
  {
    if n == 0 || !Readable(m, value) then []
    else [m.content(value)] + Prefix(m, Addr(value, 1), n - 1)
  }

  /** The iovecs the renderer asks for. */
  function Split(value: U64, n: nat): seq<IoVec>
    requires 1 <= n <= PAGE
  {
    if value / PAGE != Addr(value, n - 1) / PAGE then
      [IoVec(value, PAGE - value % PAGE), IoVec(((value / PAGE + 1) * PAGE) % TWO_64, n - (PAGE - value % PAGE))]
    else [IoVec(value, n)]
  }

  function Span(base: U64, n: nat): seq<U64> {
    seq<U64>(n, k requires 0 <= k < n => Addr(base, k))
  }

  /** The addresses a list of iovecs covers, in order. */
  function Covered(vs: seq<IoVec>): seq<U64>
    decreases |vs|
  {
    if vs == [] then []
    else Span(vs[0].base, vs[0].len) + Covered(vs[1..])
  }

  /** The address of the next page, wrapping at the top of the address space. */
  function NextPage(value: U64): U64 { ((value / PAGE + 1) * PAGE) % TWO_64 }

  lemma SamePage(value: U64, k: nat)
    requires value % PAGE + k < PAGE
    ensures Addr(value, k) == value + k && Addr(value, k) / PAGE == value / PAGE
  {
  }

  lemma OtherPage(value: U64, k: nat)
    requires value % PAGE + k >= PAGE && k < PAGE
    ensures NextPage(value) % PAGE == 0
    ensures Addr(value, k) == Addr(NextPage(value), k - (PAGE - value % PAGE))
    ensures Addr(value, k) / PAGE == NextPage(value) / PAGE != value / PAGE
  {
    var rest := k - (PAGE - value % PAGE);
    assert (value / PAGE + 1) * PAGE + rest == value + k;
    if value + k < TWO_64 {
      assert NextPage(value) == (value / PAGE + 1) * PAGE;
    } else {
      assert NextPage(value) == 0;
    }
  }

  predicate WithinOnePage(v: IoVec) {
    v.len > 0 && forall k :: 0 <= k < v.len ==> Addr(v.base, k) / 4096 == v.base / 4096
  }

  lemma SplitShape(value: U64, n: nat)
    requires 1 <= n <= PAGE
    ensures var first, next := PAGE - value % PAGE, NextPage(value);
            if n <= first then Split(value, n) == [IoVec(value, n)]
            else Split(value, n) == [IoVec(value, first), IoVec(next, n - first)]
  {
    if value % PAGE + (n - 1) < PAGE {
      SamePage(value, n - 1);
    } else {
      OtherPage(value, n - 1);
    }
  }

  lemma CoveredOne(v: IoVec)
    ensures Covered([v]) == Span(v.base, v.len)
  {
    assert [v][1..] == [];
  }

  lemma CoveredTwo(v: IoVec, w: IoVec)
    ensures Covered([v, w]) == Span(v.base, v.len) + Span(w.base, w.len)
  {
    assert [v, w][1..] == [w];
    CoveredOne(w);
  }

  lemma FirstPart(value: U64, len: nat)
    requires 0 < len && value % PAGE + len <= PAGE
    ensures WithinOnePage(IoVec(value, len))
  {
    forall k | 0 <= k < len ensures Addr(value, k) / PAGE == value / PAGE {
      SamePage(value, k);
    }
  }

  lemma SpanJoin(value: U64, first: nat, next: U64, n: nat)
    requires first == PAGE - value % PAGE && next == NextPage(value) && first < n <= PAGE
    ensures Span(value, first) + Span(next, n - first) == Span(value, n)
  {
    forall k | first <= k < n ensures Addr(next, k - first) == Addr(value, k) {
      OtherPage(value, k);
    }
  }

  /** For every address, wrapping ones included, the iovecs are non-empty, each lies within one page, and
      together they cover the n addresses from `value` in order. */
  lemma SplitCovers(value: U64, n: nat)
    requires 1 <= n <= PAGE
    ensures forall v :: v in Split(value, n) ==> WithinOnePage(v)
    ensures Covered(Split(value, n)) == Span(value, n)
  {
    var first, next := PAGE - value % PAGE, NextPage(value);
    SplitShape(value, n);
    if n <= first {
      FirstPart(value, n);
      CoveredOne(IoVec(value, n));
    } else {
      FirstPart(value, first);
      OtherPage(value, first);
      FirstPart(next, n - first);
      SpanJoin(value, first, next, n);
      CoveredTwo(IoVec(value, first), IoVec(next, n - first));
    }
  }

  // ---- the split read is the byte-wise read --------------------------------

  lemma AddrAdds(value: U64, j: nat, k: nat)
    ensures Addr(Addr(value, j), k) == Addr(value, j + k)
  {
  }

  lemma BytesCons(m: Mem, value: U64, len: nat)
    requires len > 0
    ensures Bytes(m, IoVec(value, len)) == [m.content(value)] + Bytes(m, IoVec(Addr(value, 1), len - 1))
  {
    assert Addr(value, 0) == value;
    forall k | 0 <= k < len - 1 ensures Addr(Addr(value, 1), k) == Addr(value, 1 + k) {
      AddrAdds(value, 1, k);
    }
  }

  /** The byte-wise read is the longest run of readable addresses from `value`, up to n. */
  lemma {:induction false} PrefixIsLongest(m: Mem, value: U64, n: nat)
    ensures var p := Prefix(m, value, n);
            && |p| <= n
            && (forall j :: 0 <= j < |p| ==> Readable(m, Addr(value, j)) && p[j] == m.content(Addr(value, j)))
            && (|p| < n ==> !Readable(m, Addr(value, |p|)))
    decreases n
  {
    assert Addr(value, 0) == value;
    if n == 0 || !Readable(m, value) {
    } else {
      var next, rest := Addr(value, 1), Prefix(m, Addr(value, 1), n - 1);
      PrefixIsLongest(m, next, n - 1);
      AddrAdds(value, 1, |rest|);
      forall j | 0 < j <= |rest| ensures Addr(value, j) == Addr(next, j - 1) {
        AddrAdds(value, 1, j - 1);
      }
    }
  }

  /** Reading past a readable part of one page. */
  lemma {:induction false} PrefixStep(m: Mem, value: U64, len: nat, n: nat)
    requires len <= n && AllReadable(m, IoVec(value, len))
    ensures Prefix(m, value, n) == Bytes(m, IoVec(value, len)) + Prefix(m, Addr(value, len), n - len)
    decreases len
  {
    assert Addr(value, 0) == value;
    if len == 0 {
    } else {
      var next := Addr(value, 1);
      assert Readable(m, Addr(value, 0));
      forall k | 0 <= k < len - 1 ensures Readable(m, Addr(next, k)) {
        AddrAdds(value, 1, k);
        assert Readable(m, Addr(value, 1 + k));
      }
      PrefixStep(m, next, len - 1, n - 1);
      BytesCons(m, value, len);
      AddrAdds(value, 1, len - 1);
    }
  }

  /** A part within one page is readable in full or not at all. */
  lemma PageAllOrNothing(m: Mem, v: IoVec)
    requires WithinOnePage(v)
    ensures AllReadable(m, v) <==> Readable(m, v.base)
  {
    assert Addr(v.base, 0) == v.base;
  }

  lemma TransferredOne(m: Mem, v: IoVec)
    ensures Transferred(m, [v]) == if AllReadable(m, v) then Bytes(m, v) else []
  {
    assert [v][1..] == [];
  }

  lemma TransferredTwo(m: Mem, v: IoVec, w: IoVec)
    ensures Transferred(m, [v, w]) == if AllReadable(m, v) then Bytes(m, v) + Transferred(m, [w]) else []
  {
    assert [v, w][1..] == [w];
  }

  /** A read within one page is all or nothing, and that is its mapped prefix. */
  lemma OnePageRead(m: Mem, v: IoVec)
    requires WithinOnePage(v)
    ensures Transferred(m, [v]) == Prefix(m, v.base, v.len)
  {
    TransferredOne(m, v);
    PageAllOrNothing(m, v);
    if AllReadable(m, v) {
      PrefixStep(m, v.base, v.len, v.len);
    }
  }

  /** Two parts, the second starting on the next page: its prefix follows the first's, if that is complete. */
  lemma TwoPageRead(m: Mem, v: IoVec, w: IoVec)
    requires WithinOnePage(v) && WithinOnePage(w) && w.base == Addr(v.base, v.len)
    ensures Transferred(m, [v, w]) == Prefix(m, v.base, v.len + w.len)
  {
    TransferredTwo(m, v, w);
    PageAllOrNothing(m, v);
    OnePageRead(m, w);
    if AllReadable(m, v) {
      PrefixStep(m, v.base, v.len, v.len + w.len);
    }
  }

  /** The one- or two-iovec read returns exactly the longest mapped prefix of the n bytes at `value`. */
  lemma SplitReadIsPrefix(m: Mem, value: U64, n: nat)
    requires 1 <= n <= PAGE
    ensures Transferred(m, Split(value, n)) == Prefix(m, value, n)
  {
    var first, next := PAGE - value % PAGE, NextPage(value);
    SplitShape(value, n);
    if n <= first {
      FirstPart(value, n);
      OnePageRead(m, IoVec(value, n));
    } else {
      FirstPart(value, first);
      OtherPage(value, first);
      FirstPart(next, n - first);
      TwoPageRead(m, IoVec(value, first), IoVec(next, n - first));
    }
  }

  datatype ReadResult = Count(n: nat) | Efault | Esrch

  /** process_vm_readv into `buf`; a thread group that is gone has no memory. */
  method ProcessVmReadv(world: map<Pid, Mem>, target: Pid, buf: array<Byte>, remote: seq<IoVec>) returns (r: ReadResult)
    requires remote != [] && remote[0].len > 0
    requires forall p :: p in world ==> |Transferred(world[p], remote)| <= buf.Length
    modifies buf
    ensures r.Esrch? <==> target !in world
    ensures target in world ==>
              var bytes := Transferred(world[target], remote);
              r == if bytes == [] then Efault else Count(|bytes|)
    ensures r.Count? ==> r.n <= buf.Length && buf[..r.n] == Transferred(world[target], remote)
  {
    if target !in world {
      return Esrch;
    }
    var bytes := Transferred(world[target], remote);
    if bytes == [] {
      return Efault;
    }
    var i := 0;
    while i < |bytes|
      invariant 0 <= i <= |bytes|
      invariant buf[..i] == bytes[..i]
    {
      buf[i] := bytes[i];
      i := i + 1;
    }
    return Count(|bytes|);
  }
}
