/** Sv39 page-table entries, the page table seen as a map from virtual page
    numbers to leaf entries, satp tokens, and the page-by-page splitting of
    a user buffer (`os/src/mm/page_table.rs`).

    The entry layout (PPN in bits 10..53, flags in bits 0..7) follows
    section 4.4 (Sv39) of the RISC-V Privileged ISA specification, version
    1.12, and the token layout (MODE = 8 in bits 60..63, PPN in bits 0..43)
    follows section 4.1.11 (satp) of the same document.

    The three-level walk of `find_pte`/`find_pte_create` is abstracted to a
    map from VPN to the leaf entry it reaches: a VPN is in the map exactly
    when `find_pte` finds its leaf slot. `find_pte_create` always reaches a
    slot; when the walk had to create the leaf table, every slot of that
    table reads as `empty()` and becomes reachable. */
module PageTable {
  import opened Common

  /** `usize` on the 64-bit target. */
  type usize = bv64

  /** `PTEFlags`, a `u8` bit set. */
  type PteFlags = bv8

  const V: PteFlags := 1
  const R: PteFlags := 2
  const W: PteFlags := 4
  const X: PteFlags := 8
  const U: PteFlags := 16
  const G: PteFlags := 32
  const A: PteFlags := 64
  const D: PteFlags := 128

  /** The 44-bit physical page number field. */
  const PPN_MASK: usize := (1 << 44) - 1

  const PAGE_SIZE: nat := 4096

  /* ---------------------------------------------------------------- */
  /* PageTableEntry                                                    */
  /* ---------------------------------------------------------------- */

  datatype PageTableEntry = PageTableEntry(bits: usize)

  /** `PageTableEntry::new`: the PPN shifted above the ten low bits, the
      flags in the lowest eight. Bits 8 and 9 (reserved for software) are
      zero, and a PPN wider than 44 bits spills over the top field. */
  function NewEntry(ppn: usize, flags: PteFlags): (e: PageTableEntry)
    ensures e.bits & 0x3FF == flags as usize
    ensures ppn <= PPN_MASK ==> e.bits >> 54 == 0
  {
    PageTableEntry((ppn << 10) | (flags as usize))
  }

  /** `PageTableEntry::empty`. */
  function EmptyEntry(): (e: PageTableEntry)
    ensures !IsValid(e) && !Readable(e) && !Writable(e) && !Executable(e)
    ensures Flags(e) == 0 && Ppn(e) == 0
  {
    PageTableEntry(0)
  }

  /** `ppn()`: bits 10..53. With the ten low bits it gives back the low 54
      bits of the entry. */
  function Ppn(e: PageTableEntry): (ppn: usize)
    ensures ppn <= PPN_MASK
    ensures (ppn << 10) | (e.bits & 0x3FF) == e.bits & ((1 << 54) - 1)
  {
    (e.bits >> 10) & PPN_MASK
  }

  /** `flags()`: the low byte (`from_bits` accepts every byte, since all
      eight flags are defined, so the `unwrap` cannot fail). */
  function Flags(e: PageTableEntry): (f: PteFlags)
    ensures (f as usize) | (e.bits & !0xFF) == e.bits
  {
    (e.bits & 0xFF) as PteFlags
  }

  /** `is_valid`: the V flag, bit 0 of the entry. */
  predicate IsValid(e: PageTableEntry)
    ensures IsValid(e) <==> e.bits & 1 == 1
  {
    Flags(e) & V != 0
  }

  /** `readable`: the R flag, bit 1 of the entry. */
  predicate Readable(e: PageTableEntry)
    ensures Readable(e) <==> (e.bits >> 1) & 1 == 1
  {
    Flags(e) & R != 0
  }

  /** `writable`: the W flag, bit 2 of the entry. */
  predicate Writable(e: PageTableEntry)
    ensures Writable(e) <==> (e.bits >> 2) & 1 == 1
  {
    Flags(e) & W != 0
  }

  /** `executable`: the X flag, bit 3 of the entry. */
  predicate Executable(e: PageTableEntry)
    ensures Executable(e) <==> (e.bits >> 3) & 1 == 1
  {
    Flags(e) & X != 0
  }

  /** An entry built from a PPN that fits the field hands back that PPN and
      those flags, and its permission tests are the flags' bits. */
  lemma NewEntryRoundTrip(ppn: usize, flags: PteFlags)
    requires ppn <= PPN_MASK
    ensures Ppn(NewEntry(ppn, flags)) == ppn
    ensures Flags(NewEntry(ppn, flags)) == flags
    ensures IsValid(NewEntry(ppn, flags)) <==> flags & V != 0
    ensures Readable(NewEntry(ppn, flags)) <==> flags & R != 0
    ensures Writable(NewEntry(ppn, flags)) <==> flags & W != 0
    ensures Executable(NewEntry(ppn, flags)) <==> flags & X != 0
  {
  }

  /* ---------------------------------------------------------------- */
  /* PageTable                                                         */
  /* ---------------------------------------------------------------- */

  /** The root frame and the leaf entries its tree reaches, by VPN. */
  datatype PageTable = PageTable(rootPpn: usize, entries: map<nat, PageTableEntry>)

  /** Physical memory as far as page tables go: the leaf entries reachable
      from each root frame. */
  type PageMemory = map<usize, map<nat, PageTableEntry>>

  /** `token`: satp with MODE = 8 (Sv39) and the root PPN. */
  function Token(pt: PageTable): (satp: usize)
    ensures pt.rootPpn <= PPN_MASK ==> satp >> 60 == 8 && (satp >> 44) & 0xFFFF == 0
  {
    (8 << 60) | pt.rootPpn
  }

  /** `from_token`: the page table whose root is the token's low 44 bits;
      it owns no frames and sees the entries memory holds under that root. */
  function FromToken(satp: usize, mem: PageMemory): (pt: PageTable)
    ensures pt.rootPpn <= PPN_MASK
    ensures pt.rootPpn == TokenRoot(satp)
    ensures pt.rootPpn in mem ==> pt.entries == mem[pt.rootPpn]
  {
    var root := satp & PPN_MASK;
    PageTable(root, if root in mem then mem[root] else map[])
  }

  /** The low 44 bits of a token; with the bits above they give back the
      token. */
  function TokenRoot(satp: usize): (root: usize)
    ensures root <= PPN_MASK
    ensures ((satp >> 44) << 44) | root == satp
  {
    satp & PPN_MASK
  }

  /** A table rebuilt from its own token has the same root. */
  lemma FromTokenToken(pt: PageTable, mem: PageMemory)
    requires pt.rootPpn <= PPN_MASK
    ensures FromToken(Token(pt), mem).rootPpn == pt.rootPpn
  {
  }

  /** `translate`: a copy of the leaf entry if the walk reaches one
      (whether or not it is valid). */
  function Translate(pt: PageTable, vpn: nat): (r: Option<PageTableEntry>)
    ensures r.Some? <==> vpn in pt.entries
    ensures r.Some? ==> r.value == pt.entries[vpn]
  {
    if vpn in pt.entries then Some(pt.entries[vpn]) else None
  }

  /** The number of entries in one page-table frame, so the number of VPNs
      that share a leaf table. */
  const ENTRIES: nat := 512

  /** The VPNs that `find_pte_create(vpn)` makes reachable without filling
      them: when the walk has to create `vpn`'s leaf table, that table is a
      zeroed frame, so every other slot of it reads as `empty()`. A leaf
      table that already existed adds nothing, since its slots were already
      reachable. */
  function NewSiblings(pt: PageTable, vpn: nat): (m: map<nat, PageTableEntry>)
    ensures forall v :: v in m <==> v !in pt.entries && v / ENTRIES == vpn / ENTRIES
    ensures forall v :: v in m ==> m[v] == EmptyEntry()
  {
    var base := vpn / ENTRIES * ENTRIES;
    map v | base <= v < base + ENTRIES && v !in pt.entries :: EmptyEntry()
  }

  /** `map`: the slot `find_pte_create` reaches must not be valid (the
      assert); it then holds the PPN with the given flags plus V. The rest
      of the leaf table the walk reaches becomes reachable as well. */
  function Map(pt: PageTable, vpn: nat, ppn: usize, flags: PteFlags): (r: Result<PageTable>)
    ensures r.Fatal? <==> Translate(pt, vpn).Some? && IsValid(Translate(pt, vpn).value)
    ensures r.Fatal? ==> r.panic == AlreadyMapped
    ensures r.Ok? ==>
              && r.value.rootPpn == pt.rootPpn
              && Translate(r.value, vpn) == Some(NewEntry(ppn, flags | V))
              && (forall v: nat :: v / ENTRIES != vpn / ENTRIES ==> Translate(r.value, v) == Translate(pt, v))
              && (forall v :: v != vpn && Translate(pt, v).Some? ==> Translate(r.value, v) == Translate(pt, v))
              && (forall v :: v / ENTRIES == vpn / ENTRIES && Translate(pt, v).None? && v != vpn ==>
                    Translate(r.value, v) == Some(EmptyEntry()))
  {
    var slot := if vpn in pt.entries then pt.entries[vpn] else EmptyEntry();
    if IsValid(slot) then Fatal(AlreadyMapped)
    else Ok(pt.(entries := (pt.entries + NewSiblings(pt, vpn))[vpn := NewEntry(ppn, flags | V)]))
  }

  /** `unmap`: `find_pte` must reach the slot (the `unwrap`) and it must be
      valid (the assert); the slot is then reset to `empty()`. */
  function Unmap(pt: PageTable, vpn: nat): (r: Result<PageTable>)
    ensures r.Fatal? <==> Translate(pt, vpn).None? || !IsValid(Translate(pt, vpn).value)
    ensures r.Fatal? ==> r.panic == (if Translate(pt, vpn).None? then NotMapped else UnmapInvalid)
    ensures r.Ok? ==>
              && r.value.rootPpn == pt.rootPpn
              && Translate(r.value, vpn) == Some(EmptyEntry())
              && forall v :: v != vpn ==> Translate(r.value, v) == Translate(pt, v)
  {
    if vpn !in pt.entries then Fatal(NotMapped)
    else if !IsValid(pt.entries[vpn]) then Fatal(UnmapInvalid)
    else Ok(pt.(entries := pt.entries[vpn := EmptyEntry()]))
  }

  /** After `map`, `translate` yields a valid entry holding the mapped PPN
      and the requested flags with V added. */
  lemma MapThenTranslate(pt: PageTable, vpn: nat, ppn: usize, flags: PteFlags)
    requires ppn <= PPN_MASK && Map(pt, vpn, ppn, flags).Ok?
    ensures var e := Translate(Map(pt, vpn, ppn, flags).value, vpn);
            && e.Some? && IsValid(e.value)
            && Ppn(e.value) == ppn
            && Flags(e.value) == flags | V
  {
    NewEntryRoundTrip(ppn, flags | V);
  }

  /** `unmap` undoes `map`: it succeeds on the page `map` just filled and
      leaves an invalid slot, which a later `map` may fill again. Every VPN
      outside that leaf table, and every VPN that was reachable before,
      translates as it did before `map`. */
  lemma MapThenUnmap(pt: PageTable, vpn: nat, ppn: usize, flags: PteFlags)
    requires Map(pt, vpn, ppn, flags).Ok?
    ensures var pt' := Map(pt, vpn, ppn, flags).value;
            && Unmap(pt', vpn).Ok?
            && Translate(Unmap(pt', vpn).value, vpn) == Some(EmptyEntry())
            && (forall v: nat :: v / ENTRIES != vpn / ENTRIES ==> Translate(Unmap(pt', vpn).value, v) == Translate(pt, v))
            && (forall v :: v != vpn && Translate(pt, v).Some? ==> Translate(Unmap(pt', vpn).value, v) == Translate(pt, v))
            && Map(Unmap(pt', vpn).value, vpn, ppn, flags).Ok?
  {
    var pt' := Map(pt, vpn, ppn, flags).value;
    assert IsValid(NewEntry(ppn, flags | V));
  }

  /* ---------------------------------------------------------------- */
  /* translated_byte_buffer                                            */
  /* ---------------------------------------------------------------- */

  /** Addresses below this bound are left alone by `VirtAddr::from` (no
      39-bit truncation) and by the conversion back to `usize` (no sign
      extension). */
  const VA_LIMIT: nat := 0x40_0000_0000

  /** `ppn.get_bytes_array()[lo..hi]`. */
  datatype Chunk = Chunk(ppn: usize, lo: nat, hi: nat)

  /** Virtual address `va` lies in a page the walk reaches. */
  predicate Mapped(pt: PageTable, va: nat) {
    va / PAGE_SIZE in pt.entries
  }

  /** The physical address `va` translates to, reading the PPN of the leaf
      entry without looking at its flags. */
  function PhysAddr(pt: PageTable, va: int): nat {
    if va >= 0 && Mapped(pt, va) then (Ppn(pt.entries[va / PAGE_SIZE]) as nat) * PAGE_SIZE + va % PAGE_SIZE
    else 0
  }

  /** The physical addresses a chunk covers, in order. */
  function ChunkAddrs(c: Chunk): (addrs: seq<nat>)
    requires c.lo <= c.hi
    ensures |addrs| == c.hi - c.lo
  {
    seq(c.hi - c.lo, o => (c.ppn as nat) * PAGE_SIZE + c.lo + o)
  }

  predicate ChunkOk(c: Chunk) {
    c.lo < c.hi <= PAGE_SIZE
  }

  /** The physical addresses a chunk list covers, in order. */
  function Addrs(cs: seq<Chunk>): (addrs: seq<nat>)
    requires forall k :: 0 <= k < |cs| ==> ChunkOk(cs[k])
  {
    if cs == [] then [] else assert ChunkOk(cs[0]); ChunkAddrs(cs[0]) + Addrs(cs[1..])
  }

  /** The total length of a chunk list. */
  function TotalLen(cs: seq<Chunk>): nat
    requires forall k :: 0 <= k < |cs| ==> ChunkOk(cs[k])
  {
    if cs == [] then 0 else assert ChunkOk(cs[0]); cs[0].hi - cs[0].lo + TotalLen(cs[1..])
  }

  lemma {:induction false} AddrsLength(cs: seq<Chunk>)
    requires forall k :: 0 <= k < |cs| ==> ChunkOk(cs[k])
    ensures |Addrs(cs)| == TotalLen(cs)
  {
    if cs != [] {
      AddrsLength(cs[1..]);
    }
  }

  /** The loop of `translated_byte_buffer` from virtual address `start` up
      to `end`: one chunk per page touched, each the part of that page's
      frame inside the range. A page the walk does not reach is the
      `unwrap` panic. */
  function BufferFrom(pt: PageTable, start: nat, end: nat): (r: Result<seq<Chunk>>)
    requires end <= VA_LIMIT
    ensures r.Ok? <==> forall va :: start <= va < end ==> Mapped(pt, va)
    ensures r.Fatal? ==> r.panic == NotMapped
    ensures r.Ok? ==>
              && (forall k :: 0 <= k < |r.value| ==> ChunkOk(r.value[k]))
              && Addrs(r.value) == seq(if start < end then end - start else 0, i => PhysAddr(pt, start + i))
    decreases end - start
  {
    if start >= end then Ok([])
    else
      var vpn := start / PAGE_SIZE;
      match Translate(pt, vpn)
      case None =>
        assert !Mapped(pt, start);
        Fatal(NotMapped)
      case Some(pte) =>
        var endVa := Min((vpn + 1) * PAGE_SIZE, end);
        var c := Chunk(Ppn(pte), start % PAGE_SIZE,
                       if endVa % PAGE_SIZE == 0 then PAGE_SIZE else endVa % PAGE_SIZE);
        var rest := BufferFrom(pt, endVa, end);
        BufferStep(pt, start, end, c, rest);
        match rest
        case Fatal(x) => Fatal(x)
        case Ok(cs) => Ok([c] + cs)
  }

  /** One turn of the loop: the chunk covers `start` up to the next page
      boundary or `end`, whichever comes first. */
  lemma BufferStep(pt: PageTable, start: nat, end: nat, c: Chunk, rest: Result<seq<Chunk>>)
    requires start < end <= VA_LIMIT && Mapped(pt, start)
    requires var endVa := Min((start / PAGE_SIZE + 1) * PAGE_SIZE, end);
             && c == Chunk(Ppn(pt.entries[start / PAGE_SIZE]), start % PAGE_SIZE,
                           if endVa % PAGE_SIZE == 0 then PAGE_SIZE else endVa % PAGE_SIZE)
             && (rest.Ok? <==> forall va :: endVa <= va < end ==> Mapped(pt, va))
             && (rest.Ok? ==>
                   && (forall k :: 0 <= k < |rest.value| ==> ChunkOk(rest.value[k]))
                   && Addrs(rest.value) == seq(end - endVa, i => PhysAddr(pt, endVa + i)))
    ensures ChunkOk(c)
    ensures rest.Ok? <==> forall va :: start <= va < end ==> Mapped(pt, va)
    ensures rest.Ok? ==>
              && (forall k :: 0 <= k < |[c] + rest.value| ==> ChunkOk(([c] + rest.value)[k]))
              && Addrs([c] + rest.value) == seq(end - start, i => PhysAddr(pt, start + i))
  {
    var endVa := Min((start / PAGE_SIZE + 1) * PAGE_SIZE, end);
    PageChunk(pt, start, end, c);
    if rest.Ok? {
      JoinChunks(c, rest.value, seq(endVa - start, i => PhysAddr(pt, start + i)),
                 seq(end - endVa, i => PhysAddr(pt, endVa + i)),
                 seq(end - start, i => PhysAddr(pt, start + i)));
    }
  }

  /** The chunk for the page holding `start` covers, in order, the physical
      bytes behind `start` up to the page boundary or `end`. */
  lemma PageChunk(pt: PageTable, start: nat, end: nat, c: Chunk)
    requires start < end <= VA_LIMIT && Mapped(pt, start)
    requires var endVa := Min((start / PAGE_SIZE + 1) * PAGE_SIZE, end);
             c == Chunk(Ppn(pt.entries[start / PAGE_SIZE]), start % PAGE_SIZE,
                        if endVa % PAGE_SIZE == 0 then PAGE_SIZE else endVa % PAGE_SIZE)
    ensures ChunkOk(c)
    ensures var endVa := Min((start / PAGE_SIZE + 1) * PAGE_SIZE, end);
            ChunkAddrs(c) == seq(endVa - start, i => PhysAddr(pt, start + i))
  {
    var vpn := start / PAGE_SIZE;
    var endVa := Min((vpn + 1) * PAGE_SIZE, end);
    assert c.hi - c.lo == endVa - start;
    forall va | start <= va < endVa ensures va / PAGE_SIZE == vpn && PhysAddr(pt, va) == (c.ppn as nat) * PAGE_SIZE + c.lo + (va - start) {
    }
    forall i | 0 <= i < endVa - start ensures ChunkAddrs(c)[i] == PhysAddr(pt, start + i) {
    }
  }

  /** Putting a chunk in front of a chunk list puts its addresses in front
      of the list's. */
  lemma JoinChunks(c: Chunk, cs: seq<Chunk>, a: seq<int>, b: seq<int>, ab: seq<int>)
    requires ChunkOk(c) && forall k :: 0 <= k < |cs| ==> ChunkOk(cs[k])
    requires ChunkAddrs(c) == a && Addrs(cs) == b
    requires |ab| == |a| + |b| && (forall i :: 0 <= i < |a| ==> ab[i] == a[i])
    requires forall i :: 0 <= i < |b| ==> ab[|a| + i] == b[i]
    ensures forall k :: 0 <= k < |[c] + cs| ==> ChunkOk(([c] + cs)[k])
    ensures Addrs([c] + cs) == ab
  {
    var all := [c] + cs;
    assert all[1..] == cs;
    assert Addrs(all) == a + b;
    forall i | 0 <= i < |ab| ensures (a + b)[i] == ab[i] {
      if i >= |a| {
        assert ab[|a| + (i - |a|)] == b[i - |a|];
      }
    }
  }

  /** `translated_byte_buffer`: the chunks for `[ptr, ptr + len)` through
      the page table the token names. They exist exactly when every byte
      lies in a reached page; they are page-bounded, their lengths sum to
      `len`, and their bytes are, in order, the physical bytes behind
      `ptr`, `ptr + 1`, ... */
  function TranslatedByteBuffer(token: usize, mem: PageMemory, ptr: nat, len: nat): (r: Result<seq<Chunk>>)
    requires ptr + len <= VA_LIMIT
    ensures var pt := FromToken(token, mem);
            && (r.Ok? <==> forall va :: ptr <= va < ptr + len ==> Mapped(pt, va))
            && (r.Fatal? ==> r.panic == NotMapped)
            && (r.Ok? ==>
                  && (forall k :: 0 <= k < |r.value| ==> ChunkOk(r.value[k]))
                  && TotalLen(r.value) == len
                  && Addrs(r.value) == seq(len, i => PhysAddr(pt, ptr + i)))
  {
    var r := BufferFrom(FromToken(token, mem), ptr, ptr + len);
    if r.Ok? then (AddrsLength(r.value); r) else r
  }
}
