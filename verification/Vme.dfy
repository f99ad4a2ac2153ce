/** x86-64 page tables (abstract-machine/am/src/x86/qemu/vme.c): a four-level radix tree that agrees
    with a map from user pages to physical pages. Memory holds the tables only, 512 entries a page. */
module Vme {
  import opened Words
  import opened Bits

  type Memory = map<nat, seq<nat>>

  const PAGE := 4096
  const PHYSICAL := 0x10_0000_0000_0000 // 52 address bits
  const USER_START := 0x1000_0000_0000
  const USER_END := 0x1080_0000_0000
  const KPT := 0x1000
  const KPDPT := 0x2000
  const PTE_P := 1
  const PTE_W := 2
  const PTE_U := 4
  const ENTRY_FLAGS := 7 // P | W | U

  /** Where a table sits in the tree: its level (1 is the PML4) and the address bits above its
      index. */
  datatype Spot = Spot(level: nat, prefix: nat)

  /** What the processor makes of an address: nothing, a 1 GiB page, or a 4 KiB page. */
  datatype Translation =
    | Fault
    | Large(base: nat, writable: bool, user: bool)
    | Page(pa: nat, writable: bool, user: bool)

  // ---------------------------------------------------------------- entries and indices

  predicate Present(e: nat) { e % 2 == 1 }
  predicate Writable(e: nat) { (e / 2) % 2 == 1 }
  predicate User(e: nat) { (e / 4) % 2 == 1 }
  predicate Huge(e: nat) { (e / 128) % 2 == 1 }

  /** These are the tests e & PTE_P, e & PTE_W and e & PTE_U. */
  lemma FlagTests(e: nat)
    ensures And(e, PTE_P) != 0 <==> Present(e)
    ensures And(e, PTE_W) != 0 <==> Writable(e)
    ensures And(e, PTE_U) != 0 <==> User(e)
  {
    assert And(e / 2, 1) != 0 <==> (e / 2) % 2 == 1;
    assert And(e / 2, 2) == if e / 2 == 0 then 0 else 2 * And(e / 2 / 2, 1);
    assert e / 2 / 2 == e / 4;
  }

  /** The test e & PTE_P, and the test of P and U together. */
  method TestPresent(e: nat) returns (yes: bool)
    ensures yes <==> Present(e)
  {
    FlagTests(e);
    yes := And(e, PTE_P) != 0;
  }

  method TestPresentUser(e: nat) returns (yes: bool)
    ensures yes <==> Present(e) && User(e)
  {
    FlagTests(e);
    yes := And(e, PTE_P) != 0 && And(e, PTE_U) != 0;
  }

  /** baseof: the page address in an entry. */
  function Base(e: nat): nat { e - e % PAGE }

  /** Joining a page address and flags: the entries `page | PTE_P | flags`. */
  lemma JoinFlags(page: nat, flags: nat)
    requires page % PAGE == 0 && flags < PAGE
    ensures Or(page, flags) == page + flags
  {
    Pow2Constants();
    OrDisjoint(page, flags, 12);
  }

  lemma BaseOfEntry(page: nat, flags: nat)
    requires page % PAGE == 0 && flags < PAGE
    ensures Base(page + flags) == page && (page + flags) % PAGE == flags
  {
  }

  /** Bytes behind one entry of a table, by level; level 0 stands for CR3. */
  function Span(level: nat): (r: nat)
    requires level <= 4
    ensures r > 0
  {
    if level == 0 then 0x1_0000_0000_0000
    else if level == 1 then 0x80_0000_0000
    else if level == 2 then 0x4000_0000
    else if level == 3 then 0x20_0000
    else PAGE
  }

  function Prefix(va: nat, level: nat): nat
    requires 1 <= level <= 4
  {
    va / Span(level - 1)
  }

  /** indexof with the masks and shifts of the pgtables array. */
  function IndexOf(va: nat, level: nat): nat
    requires 1 <= level <= 4
  {
    if level == 1 then And(va, 0xff8000000000) / 0x80_0000_0000
    else if level == 2 then And(va, 0x7fc0000000) / 0x4000_0000
    else if level == 3 then And(va, 0x3fe00000) / 0x20_0000
    else And(va, 0x1ff000) / PAGE
  }

  function Index(va: nat, level: nat): (i: nat)
    requires 1 <= level <= 4
    ensures i < 512
  {
    (va / Span(level)) % 512
  }

  lemma {:induction false} AndShifted(a: nat, m: nat, s: nat)
    ensures 0 <= a / Pow2(s) && And(a, Times(m, Pow2(s))) == Times(And(a / Pow2(s), m), Pow2(s))
    decreases s
  {
    if s > 0 {
      var p := Pow2(s - 1);
      HalfMod(a, s);
      AndShifted(a / 2, m, s - 1);
      AndDouble(a, Times(m, p));
      TimesDouble(m, p);
      TimesDouble(And((a / 2) / p, m), p);
    }
  }

  lemma AndDouble(a: nat, b: nat)
    ensures And(a, 2 * b) == 2 * And(a / 2, b)
  {
    assert (2 * b) / 2 == b;
  }

  lemma TimesDouble(m: nat, p: nat)
    ensures Times(m, 2 * p) == 2 * Times(m, p)
  {
  }

  /** The index fields are the digits of the address in base 512. */
  lemma IndexOfIsIndex(va: nat, level: nat)
    requires 1 <= level <= 4
    ensures IndexOf(va, level) == Index(va, level)
  {
    Pow2Constants();
    assert Pow2(9) == 512;
    Pow2Add(9, 12);
    Pow2Add(9, 21);
    Pow2Add(9, 30);
    var s := 48 - 9 * level;
    AndShifted(va, 511, s);
    AndLow(va / Pow2(s), 9);
    MulMod(And(va / Pow2(s), 511), Pow2(s));
  }

  lemma NextPrefix(va: nat, level: nat)
    requires 1 <= level <= 4
    ensures va / Span(level) == Prefix(va, level) * 512 + Index(va, level)
  {
  }

  // ---------------------------------------------------------------- the walk of the processor

  /** 4-level paging, section 4.5 of the Intel SDM volume 3A: write and user access need the flag
      at every level; PS ends the walk early. */
  function Walk(mem: Memory, table: nat, level: nat, va: nat, w: bool, u: bool): Translation
    requires 1 <= level <= 4
    decreases 4 - level
  {
    if table !in mem || |mem[table]| != 512 then Fault
    else
      var e := mem[table][Index(va, level)];
      if !Present(e) then Fault
      else if level == 4 then Page(Base(e) % PHYSICAL, w && Writable(e), u && User(e))
      else if level > 1 && Huge(e) then Large(Base(e) % PHYSICAL, w && Writable(e), u && User(e))
      else Walk(mem, Base(e) % PHYSICAL, level + 1, va, w && Writable(e), u && User(e))
  }

  /** What the last table says. */
  function Leaf(e: nat): Translation {
    if Present(e) then Page(Base(e) % PHYSICAL, Writable(e), User(e)) else Fault
  }

  predicate InUser(va: nat) { USER_START <= va < USER_END }

  // ---------------------------------------------------------------- the tree invariant

  predicate IsPage(p: nat) { p % PAGE == 0 && 0 < p < PHYSICAL }

  /** Page t of memory is a table of 512 entries. */
  predicate HoldsTable(mem: Memory, t: nat) {
    var holds := t in mem && |mem[t]| == 512;
    holds
  }

  /** The PML4 entries taken over from kpt: one, without PTE_U. */
  function KernelEntry(i: nat): nat { if i == 0 then KPDPT + 3 else 0 }

  /** A last-level entry: a page address with P and U, and W or not. */
  predicate MapsPage(e: nat) {
    var holds := e < PHYSICAL && (e % PAGE == 5 || e % PAGE == 7);
    holds
  }

  predicate EntryOk(tables: map<nat, Spot>, s: Spot, i: nat, e: nat) {
    if s.level == 1 && i != 32 then e == KernelEntry(i)
    else if s.level >= 4 then e == 0 || MapsPage(e)
    else e == 0 || (e % PAGE == 7 && Base(e) in tables && tables[Base(e)] == Spot(s.level + 1, s.prefix * 512 + i))
  }

  ghost predicate TableOk(mem: Memory, tables: map<nat, Spot>, t: nat) {
    && t in tables
    && IsPage(t) && HoldsTable(mem, t) && 1 <= tables[t].level <= 4
    && forall i {:trigger mem[t][i]} :: 0 <= i < 512 ==> EntryOk(tables, tables[t], i, mem[t][i])
  }

  /** Every table but the root hangs in the entry its spot says. */
  ghost predicate Linked(mem: Memory, root: nat, tables: map<nat, Spot>, t: nat, p: nat) {
    t in tables &&
    var s := tables[t];
    && s.level > 1 && p in tables && tables[p] == Spot(s.level - 1, s.prefix / 512)
    && HoldsTable(mem, p) && mem[p][s.prefix % 512] == t + ENTRY_FLAGS
  }

  ghost predicate HasParent(mem: Memory, root: nat, tables: map<nat, Spot>, t: nat) {
    t in tables && (t == root || exists p :: Linked(mem, root, tables, t, p))
  }

  predicate SameSpot(tables: map<nat, Spot>, t: nat, t': nat) {
    t in tables && t' in tables && tables[t] == tables[t']
  }

  /** Bound to a name, as is PagesOk, so that a proof of it is one goal. */
  ghost predicate Ok(mem: Memory, root: nat, tables: map<nat, Spot>) {
    var holds :=
      && root in tables && tables[root] == Spot(1, 0)
      && (forall t {:trigger TableOk(mem, tables, t)} :: t in tables ==> TableOk(mem, tables, t))
      && (forall t {:trigger HasParent(mem, root, tables, t)} :: t in tables ==> HasParent(mem, root, tables, t))
      && (forall t, t' {:trigger SameSpot(tables, t, t')} ::
          t in tables && t' in tables && SameSpot(tables, t, t') ==> t == t');
    holds
  }

  /** The kernel's own tables: entry 0 maps the low 512 GiB to itself in 1 GiB pages. */
  predicate KernelTables(mem: Memory) {
    && HoldsTable(mem, KPT) && mem[KPT][0] == KPDPT + 3
    && HoldsTable(mem, KPDPT)
    && forall i {:trigger mem[KPDPT][i]} :: 0 <= i < 512 ==> mem[KPDPT][i] == i * 0x4000_0000 + 0x83
  }

  // ---------------------------------------------------------------- what the steps keep

  /** A new, zeroed table in an empty entry. */
  predicate Added(mem: Memory, tables: map<nat, Spot>, t: nat, i: nat, n: nat, mem': Memory, tables': map<nat, Spot>) {
    && t in tables && 1 <= tables[t].level < 4 && i < 512 && (tables[t].level == 1 ==> i == 32)
    && HoldsTable(mem, t) && mem[t][i] == 0 && IsPage(n) && n !in tables
    && mem' == mem[n := seq(512, _ => 0)][t := mem[t][i := n + ENTRY_FLAGS]]
    && tables' == tables[n := Spot(tables[t].level + 1, tables[t].prefix * 512 + i)]
  }

  lemma SpotIsNew(mem: Memory, root: nat, tables: map<nat, Spot>, t: nat, i: nat, x: nat)
    requires Ok(mem, root, tables) && t in tables && 1 <= tables[t].level < 4 && i < 512
    requires HoldsTable(mem, t) && mem[t][i] == 0
    requires x in tables
    ensures tables[x] != Spot(tables[t].level + 1, tables[t].prefix * 512 + i)
  {
    DigitsOf(tables[t].prefix, i);
    var p := Parent(mem, root, tables, x);
    assert p in tables && p != t ==> !SameSpot(tables, p, t);
  }

  lemma Parent(mem: Memory, root: nat, tables: map<nat, Spot>, x: nat) returns (p: nat)
    requires Ok(mem, root, tables) && x in tables
    ensures x == root || Linked(mem, root, tables, x, p)
  {
    assert HasParent(mem, root, tables, x);
    if x == root {
      p := 0;
    } else {
      p :| Linked(mem, root, tables, x, p);
    }
  }

  lemma AddedTableOk(mem: Memory, tables: map<nat, Spot>, t: nat, i: nat, n: nat, mem': Memory,
          tables': map<nat, Spot>, x: nat)
    requires Added(mem, tables, t, i, n, mem', tables') && x in tables && TableOk(mem, tables, x)
    ensures TableOk(mem', tables', x)
  {
    BaseOfEntry(n, ENTRY_FLAGS);
    assert tables'[x] == tables[x];
    forall k {:trigger mem'[x][k]} | 0 <= k < 512 ensures EntryOk(tables', tables'[x], k, mem'[x][k]) {
      assert EntryOk(tables, tables[x], k, mem[x][k]);
    }
  }

  lemma AddedNewOk(mem: Memory, tables: map<nat, Spot>, t: nat, i: nat, n: nat, mem': Memory, tables': map<nat, Spot>)
    requires Added(mem, tables, t, i, n, mem', tables')
    ensures TableOk(mem', tables', n)
  {
  }

  lemma AddedLinked(mem: Memory, root: nat, tables: map<nat, Spot>, t: nat, i: nat, n: nat, mem': Memory,
          tables': map<nat, Spot>, x: nat)
    requires Added(mem, tables, t, i, n, mem', tables') && x in tables
    requires HasParent(mem, root, tables, x)
    ensures HasParent(mem', root, tables', x)
  {
    if x != root {
      var p :| Linked(mem, root, tables, x, p);
      assert Linked(mem', root, tables', x, p);
    }
  }

  lemma AddTable(mem: Memory, root: nat, tables: map<nat, Spot>, t: nat, i: nat, n: nat, mem': Memory,
          tables': map<nat, Spot>)
    requires Ok(mem, root, tables) && Added(mem, tables, t, i, n, mem', tables')
    ensures Ok(mem', root, tables')
  {
    forall x {:trigger TableOk(mem', tables', x)} | x in tables' ensures TableOk(mem', tables', x) {
      if x != n {
        assert TableOk(mem, tables, x);
        AddedTableOk(mem, tables, t, i, n, mem', tables', x);
      } else {
        AddedNewOk(mem, tables, t, i, n, mem', tables');
      }
    }
    assert Linked(mem', root, tables', n, t) by {
      DigitsOf(tables[t].prefix, i);
      assert TableOk(mem', tables', t);
    }
    forall x {:trigger HasParent(mem', root, tables', x)} | x in tables' ensures HasParent(mem', root, tables', x) {
      if x != n {
        assert HasParent(mem, root, tables, x);
        AddedLinked(mem, root, tables, t, i, n, mem', tables', x);
      }
    }
    forall x, y {:trigger SameSpot(tables', x, y)} | x in tables' && y in tables' && SameSpot(tables', x, y)
      ensures x == y
    {
      if x in tables { SpotIsNew(mem, root, tables, t, i, x); }
      if y in tables { SpotIsNew(mem, root, tables, t, i, y); }
      assert x in tables && y in tables ==> SameSpot(tables, x, y);
    }
  }

  lemma DigitsOf(prefix: nat, i: nat)
    requires i < 512
    ensures (prefix * 512 + i) / 512 == prefix && (prefix * 512 + i) % 512 == i
  {
  }

  /** A page entry written in a last-level table. */
  predicate LeafSet(mem: Memory, tables: map<nat, Spot>, t: nat, i: nat, e: nat, mem': Memory) {
    && t in tables && tables[t].level == 4 && i < 512 && HoldsTable(mem, t)
    && (e == 0 || MapsPage(e))
    && var page: seq<nat> := mem[t][i := e]; mem' == mem[t := page]
  }

  lemma SetTableOk(mem: Memory, tables: map<nat, Spot>, t: nat, i: nat, e: nat, mem': Memory, x: nat)
    requires LeafSet(mem, tables, t, i, e, mem') && x in tables && TableOk(mem, tables, x)
    ensures TableOk(mem', tables, x)
  {
    forall k {:trigger mem'[x][k]} | 0 <= k < 512 ensures EntryOk(tables, tables[x], k, mem'[x][k]) {
      assert EntryOk(tables, tables[x], k, mem[x][k]);
    }
  }

  lemma SetLinked(mem: Memory, root: nat, tables: map<nat, Spot>, t: nat, i: nat, e: nat, mem': Memory, x: nat)
    requires LeafSet(mem, tables, t, i, e, mem') && x in tables && TableOk(mem, tables, x)
    requires HasParent(mem, root, tables, x)
    ensures HasParent(mem', root, tables, x)
  {
    if x != root {
      var p :| Linked(mem, root, tables, x, p);
      assert p != t;
      assert Linked(mem', root, tables, x, p);
    }
  }

  lemma SetLeaf(mem: Memory, root: nat, tables: map<nat, Spot>, t: nat, i: nat, e: nat, mem': Memory)
    requires Ok(mem, root, tables) && LeafSet(mem, tables, t, i, e, mem')
    ensures Ok(mem', root, tables)
  {
    forall x {:trigger TableOk(mem', tables, x)} | x in tables ensures TableOk(mem', tables, x) {
      assert TableOk(mem, tables, x);
      SetTableOk(mem, tables, t, i, e, mem', x);
    }
    forall x {:trigger HasParent(mem', root, tables, x)} | x in tables ensures HasParent(mem', root, tables, x) {
      assert TableOk(mem, tables, x) && HasParent(mem, root, tables, x);
      SetLinked(mem, root, tables, t, i, e, mem', x);
    }
  }

  // ---------------------------------------------------------------- the walk inside the tree

  /** cur is the table the walk for va meets at this level. */
  ghost predicate OnPath(tables: map<nat, Spot>, cur: nat, level: nat, va: nat) {
    var holds :=
      1 <= level <= 4 && cur in tables && tables[cur] == Spot(level, Prefix(va, level));
    holds
  }

  lemma UserRoot(mem: Memory, root: nat, tables: map<nat, Spot>, va: nat)
    requires Ok(mem, root, tables) && InUser(va)
    ensures OnPath(tables, root, 1, va) && Index(va, 1) == 32
  {
  }

  /** A user walk goes from table to table of the tree, with every permission, until an entry is
      empty. */
  lemma Descend(mem: Memory, root: nat, tables: map<nat, Spot>, cur: nat, level: nat, va: nat)
    requires Ok(mem, root, tables) && InUser(va) && OnPath(tables, cur, level, va) && level < 4
    ensures HoldsTable(mem, cur)
    ensures var e := mem[cur][Index(va, level)];
            e == 0 || (e % PAGE == 7 && OnPath(tables, Base(e), level + 1, va) && Base(e) < PHYSICAL)
    ensures var e := mem[cur][Index(va, level)];
            Walk(mem, cur, level, va, true, true) ==
            if e == 0 then Fault else Walk(mem, Base(e) % PHYSICAL, level + 1, va, true, true)
  {
    assert TableOk(mem, tables, cur);
    var i := Index(va, level);
    var e := mem[cur][i];
    NextPrefix(va, level);
    assert EntryOk(tables, tables[cur], i, e);
    if e != 0 {
      assert TableOk(mem, tables, Base(e));
      TableEntryFlags(e);
    }
  }

  /** The flags of an entry are its low bits. */
  lemma FlagsOf(k: nat, f: nat)
    requires f < 4096
    ensures var e := 4096 * k + f;
            && (Present(e) <==> Present(f)) && (Writable(e) <==> Writable(f))
            && (User(e) <==> User(f)) && (Huge(e) <==> Huge(f))
  {
    var e := 4096 * k + f;
    DivModUnique(e, 2, 2048 * k + f / 2, f % 2);
    DivModUnique(e, 4, 1024 * k + f / 4, f % 4);
    DivModUnique(e, 128, 32 * k + f / 128, f % 128);
    TwiceAnd(1024 * k, f / 2);
    TwiceAnd(512 * k, f / 4);
    TwiceAnd(16 * k, f / 128);
  }

  lemma TableEntryFlags(e: nat)
    requires e % PAGE == 7
    ensures Present(e) && Writable(e) && User(e) && !Huge(e)
  {
    FlagsOf(e / PAGE, 7);
  }

  lemma NewTableFaults(mem: Memory, tables: map<nat, Spot>, t: nat, i: nat, n: nat, mem': Memory,
          tables': map<nat, Spot>, level: nat, va: nat)
    requires Added(mem, tables, t, i, n, mem', tables') && 1 <= level < 4
    ensures Base(n + ENTRY_FLAGS) == n && mem'[t][i] == n + ENTRY_FLAGS
    ensures Walk(mem', n % PHYSICAL, level + 1, va, true, true) == Fault
  {
    BaseOfEntry(n, ENTRY_FLAGS);
    assert mem'[n][Index(va, level + 1)] == 0;
  }

  lemma AddedEntry(mem: Memory, tables: map<nat, Spot>, t: nat, i: nat, n: nat, mem': Memory,
          tables': map<nat, Spot>, cur: nat, k: nat)
    requires Added(mem, tables, t, i, n, mem', tables') && cur in tables && TableOk(mem, tables, cur) && k < 512
    ensures cur in mem' && |mem'[cur]| == 512
    ensures mem'[cur][k] == if cur == t && k == i then n + ENTRY_FLAGS else mem[cur][k]
  {
  }

  /** A table entry with all permissions hands the walk on. */
  lemma WalkStep(mem: Memory, cur: nat, level: nat, va: nat, e: nat)
    requires HoldsTable(mem, cur) && 1 <= level < 4 && mem[cur][Index(va, level)] == e && e % PAGE == 7
    ensures Walk(mem, cur, level, va, true, true) == Walk(mem, Base(e) % PHYSICAL, level + 1, va, true, true)
  {
    TableEntryFlags(e);
  }

  /** The same table entry hands both walks on to the same table. */
  lemma WalkBoth(mem: Memory, mem': Memory, cur: nat, level: nat, va: nat, e: nat)
    requires cur in mem && cur in mem' && |mem[cur]| == |mem'[cur]| == 512 && 1 <= level < 4
    requires mem[cur][Index(va, level)] == e == mem'[cur][Index(va, level)] && e % PAGE == 7 && Base(e) < PHYSICAL
    requires Walk(mem', Base(e), level + 1, va, true, true) == Walk(mem, Base(e), level + 1, va, true, true)
    ensures Walk(mem', cur, level, va, true, true) == Walk(mem, cur, level, va, true, true)
  {
    TableEntryFlags(e);
    SmallPage(Base(e));
  }

  lemma SmallPage(p: nat)
    requires p < PHYSICAL
    ensures p % PHYSICAL == p
  {
  }

  /** The same last entry, or the same empty one, ends both walks alike. */
  lemma WalkEnds(mem: Memory, mem': Memory, cur: nat, level: nat, va: nat)
    requires cur in mem && cur in mem' && |mem[cur]| == |mem'[cur]| == 512 && 1 <= level <= 4
    requires var e := mem[cur][Index(va, level)]; e == mem'[cur][Index(va, level)] && (level == 4 || e == 0)
    ensures Walk(mem', cur, level, va, true, true) == Walk(mem, cur, level, va, true, true)
  {
  }

  lemma FilledEntryFaults(mem: Memory, tables: map<nat, Spot>, t: nat, i: nat, n: nat, mem': Memory,
          tables': map<nat, Spot>, level: nat, va: nat)
    requires Added(mem, tables, t, i, n, mem', tables') && 1 <= level < 4 && Index(va, level) == i
    requires t in mem' && |mem'[t]| == 512 && mem'[t][i] == n + ENTRY_FLAGS
    ensures Walk(mem', t, level, va, true, true) == Fault
  {
    NewTableFaults(mem, tables, t, i, n, mem', tables', level, va);
    BaseOfEntry(n, ENTRY_FLAGS);
    WalkStep(mem', t, level, va, n + ENTRY_FLAGS);
  }

  lemma WalkAfterAdd(mem: Memory, root: nat, tables: map<nat, Spot>, t: nat, i: nat, n: nat, mem': Memory,
          tables': map<nat, Spot>,
                     cur: nat, level: nat, va: nat)
    requires Ok(mem, root, tables) && Added(mem, tables, t, i, n, mem', tables')
    requires InUser(va) && OnPath(tables, cur, level, va)
    ensures Walk(mem', cur, level, va, true, true) == Walk(mem, cur, level, va, true, true)
    decreases 4 - level
  {
    assert TableOk(mem, tables, cur);
    var k := Index(va, level);
    AddedEntry(mem, tables, t, i, n, mem', tables', cur, k);
    if level < 4 {
      Descend(mem, root, tables, cur, level, va);
      var e := mem[cur][k];
      if cur == t && k == i {
        FilledEntryFaults(mem, tables, t, i, n, mem', tables', level, va);
      } else if e != 0 {
        WalkAfterAdd(mem, root, tables, t, i, n, mem', tables', Base(e), level + 1, va);
        WalkBoth(mem, mem', cur, level, va, e);
      } else {
        WalkEnds(mem, mem', cur, level, va);
      }
    } else {
      WalkEnds(mem, mem', cur, level, va);
    }
  }

  lemma PresentLeads(mem: Memory, root: nat, tables: map<nat, Spot>, cur: nat, level: nat, va: nat)
    requires Ok(mem, root, tables) && InUser(va) && OnPath(tables, cur, level, va) && level < 4
    requires HoldsTable(mem, cur) && Present(mem[cur][Index(va, level)])
    ensures var b := Base(mem[cur][Index(va, level)]);
            OnPath(tables, b, level + 1, va) &&
                Walk(mem, cur, level, va, true, true) == Walk(mem, b, level + 1, va, true, true)
  {
    Descend(mem, root, tables, cur, level, va);
    SmallPage(Base(mem[cur][Index(va, level)]));
  }

  /** Only the page behind the entry is affected. */
  lemma WalkAfterSet(mem: Memory, root: nat, tables: map<nat, Spot>, t: nat, i: nat, e: nat, mem': Memory, cur: nat,
          level: nat, va: nat)
    requires Ok(mem, root, tables) && LeafSet(mem, tables, t, i, e, mem') && Ok(mem', root, tables)
    requires InUser(va) && OnPath(tables, cur, level, va)
    requires va / PAGE != tables[t].prefix * 512 + i
    ensures Walk(mem', cur, level, va, true, true) == Walk(mem, cur, level, va, true, true)
    decreases 4 - level
  {
    assert TableOk(mem, tables, cur);
    if level < 4 {
      Descend(mem, root, tables, cur, level, va);
      var x := mem[cur][Index(va, level)];
      assert mem'[cur] == mem[cur];
      if x != 0 {
        WalkAfterSet(mem, root, tables, t, i, e, mem', Base(x), level + 1, va);
        WalkBoth(mem, mem', cur, level, va, x);
      } else {
        WalkEnds(mem, mem', cur, level, va);
      }
    } else {
      OtherEntry(mem, tables, t, i, e, mem', cur, va);
      WalkEnds(mem, mem', cur, level, va);
    }
  }

  lemma OtherEntry(mem: Memory, tables: map<nat, Spot>, t: nat, i: nat, e: nat, mem': Memory, cur: nat, va: nat)
    requires LeafSet(mem, tables, t, i, e, mem') && OnPath(tables, cur, 4, va) && TableOk(mem, tables, cur)
    requires va / PAGE != tables[t].prefix * 512 + i
    ensures |mem'[cur]| == 512 && mem'[cur][Index(va, 4)] == mem[cur][Index(va, 4)]
  {
    NextPrefix(va, 4);
  }

  /** The spot of the ancestor at a level. */
  function Up(s: Spot, level: nat): nat
    decreases s.level
  {
    if s.level <= level then s.prefix else Up(Spot(s.level - 1, s.prefix / 512), level)
  }

  lemma {:induction false} Ancestor(mem: Memory, root: nat, tables: map<nat, Spot>, x: nat, level: nat) returns (a: nat)
    requires Ok(mem, root, tables) && x in tables && 1 <= level <= tables[x].level
    ensures a in tables && tables[a] == Spot(level, Up(tables[x], level))
    decreases tables[x].level
  {
    if level == tables[x].level {
      a := x;
    } else {
      var p := Parent(mem, root, tables, x);
      a := Ancestor(mem, root, tables, p, level);
    }
  }

  lemma UpOfPage(va: nat, level: nat)
    requires 1 <= level <= 4
    ensures Up(Spot(4, Prefix(va, 4)), level) == Prefix(va, level)
  {
    var a, b, c, d := Prefix(va, 4), Prefix(va, 3), Prefix(va, 2), Prefix(va, 1);
    assert a / 512 == b && b / 512 == c && c / 512 == d;
    assert Up(Spot(4, a), level) == if level == 4 then a else Up(Spot(3, b), level);
    assert Up(Spot(3, b), level) == if level >= 3 then b else Up(Spot(2, c), level);
    assert Up(Spot(2, c), level) == if level >= 2 then c else Up(Spot(1, d), level);
  }

  /** When the last table for va exists, no entry on the way to it is empty. */
  lemma PathPresent(mem: Memory, root: nat, tables: map<nat, Spot>, x: nat, cur: nat, level: nat, va: nat)
    requires Ok(mem, root, tables) && OnPath(tables, x, 4, va) && OnPath(tables, cur, level, va) && level < 4
    ensures HoldsTable(mem, cur) && mem[cur][Index(va, level)] != 0
  {
    var a := Ancestor(mem, root, tables, x, level + 1);
    UpOfPage(va, level + 1);
    NextPrefix(va, level);
    DigitsOf(Prefix(va, level), Index(va, level));
    var p := Parent(mem, root, tables, a);
    assert TableOk(mem, tables, cur);
    assert p in tables && SameSpot(tables, p, cur);
  }

  function Lookup(mem: Memory, root: nat, va: nat): Translation {
    Walk(mem, root, 1, va, true, true)
  }

  /** The low 512 GiB stay the kernel's identity map, closed to user code, in every address space. */
  lemma KernelIdentity(mem: Memory, root: nat, tables: map<nat, Spot>, va: nat)
    requires Ok(mem, root, tables) && KernelTables(mem) && va < 0x80_0000_0000
    ensures Lookup(mem, root, va) == Large(va - va % 0x4000_0000, true, false)
  {
    assert TableOk(mem, tables, root);
    assert Index(va, 1) == 0 && EntryOk(tables, tables[root], 0, mem[root][0]);
    KernelHalf(mem, va);
    KernelFirstEntry();
  }

  lemma KernelFirstEntry()
    ensures Present(KPDPT + 3) && Writable(KPDPT + 3) && !User(KPDPT + 3) && Base(KPDPT + 3) == KPDPT
  {
    FlagsOf(2, 3);
    BaseOfEntry(KPDPT, 3);
  }

  lemma KernelHalf(mem: Memory, va: nat)
    requires KernelTables(mem) && va < 0x80_0000_0000
    ensures Walk(mem, KPDPT, 2, va, true, false) == Large(va - va % 0x4000_0000, true, false)
  {
    var i := Index(va, 2);
    assert i == va / 0x4000_0000;
    LargeEntry(i, mem[KPDPT][i]);
  }

  lemma LargeEntry(i: nat, e: nat)
    requires i < 512 && e == i * 0x4000_0000 + 0x83
    ensures Present(e) && Writable(e) && !User(e) && Huge(e) && Base(e) % PHYSICAL == i * 0x4000_0000
  {
    FlagsOf(i * 0x4_0000, 0x83);
    MulMod(i * 0x4_0000, PAGE);
    BaseOfEntry(i * 0x4000_0000, 0x83);
    assert Present(0x83) && Writable(0x83) && !User(0x83) && Huge(0x83);
  }

  /** Tables were added from the pages at hand; every user page translates as before, and no page
      outside the tree was written. */
  ghost predicate Grows(mem: Memory, tables: map<nat, Spot>, avail: set<nat>,
                        mem': Memory, tables': map<nat, Spot>, avail': set<nat>, root: nat) {
    && avail' <= avail && tables'.Keys == tables.Keys + (avail - avail')
    && (forall x {:trigger tables'[x]} :: x in tables ==> tables'[x] == tables[x])
    && (forall va: nat {:trigger Lookup(mem', root, va)} :: InUser(va) ==>
        Lookup(mem', root, va) == Lookup(mem, root, va))
    && (forall p {:trigger SamePage(mem, mem', p)} :: p !in avail && p !in tables ==> SamePage(mem, mem', p))
  }

  predicate SamePage(mem: Memory, mem': Memory, p: nat) {
    p in mem ==> p in mem' && mem'[p] == mem[p]
  }

  lemma GrowsTwice(mem: Memory, tables: map<nat, Spot>, avail: set<nat>,
                   mem1: Memory, tables1: map<nat, Spot>, avail1: set<nat>,
                   mem2: Memory, tables2: map<nat, Spot>, avail2: set<nat>, root: nat)
    requires Grows(mem, tables, avail, mem1, tables1, avail1, root)
    requires Grows(mem1, tables1, avail1, mem2, tables2, avail2, root)
    ensures Grows(mem, tables, avail, mem2, tables2, avail2, root)
  {
    forall va: nat {:trigger Lookup(mem2, root, va)} | InUser(va)
      ensures Lookup(mem2, root, va) == Lookup(mem, root, va)
    {
      assert Lookup(mem1, root, va) == Lookup(mem, root, va);
    }
    forall p {:trigger SamePage(mem, mem2, p)} | p !in avail && p !in tables ensures SamePage(mem, mem2, p) {
      assert SamePage(mem, mem1, p) && SamePage(mem1, mem2, p);
    }
    assert tables2.Keys == tables.Keys + (avail - avail2);
    forall x {:trigger tables2[x]} | x in tables ensures tables2[x] == tables[x] {
      assert tables1[x] == tables[x];
    }
  }

  /** Every page that leaves the pages at hand becomes a table. */
  ghost predicate KeepsPages(tables: map<nat, Spot>, avail: set<nat>, tables': map<nat, Spot>, avail': set<nat>) {
    avail' <= avail && avail' + tables'.Keys == avail + tables.Keys
  }

  lemma GrowsKeepsPages(mem: Memory, tables: map<nat, Spot>, avail: set<nat>,
                        mem': Memory, tables': map<nat, Spot>, avail': set<nat>, root: nat)
    requires Grows(mem, tables, avail, mem', tables', avail', root)
    ensures KeepsPages(tables, avail, tables', avail')
  {
  }

  lemma GrowsByOne(mem: Memory, root: nat, tables: map<nat, Spot>, avail: set<nat>, t: nat, i: nat, n: nat,
                   mem': Memory, tables': map<nat, Spot>)
    requires Ok(mem, root, tables) && Added(mem, tables, t, i, n, mem', tables') && n in avail
    ensures Ok(mem', root, tables') && Grows(mem, tables, avail, mem', tables', avail - {n}, root)
  {
    AddTable(mem, root, tables, t, i, n, mem', tables');
    forall va: nat {:trigger Lookup(mem', root, va)} | InUser(va)
      ensures Lookup(mem', root, va) == Lookup(mem, root, va)
    {
      UserRoot(mem, root, tables, va);
      WalkAfterAdd(mem, root, tables, t, i, n, mem', tables', root, 1, va);
    }
    assert tables'.Keys == tables.Keys + (avail - (avail - {n}));
  }

  /** The pages pgalloc can still hand out, and what may not be handed out. */
  ghost predicate PagesOk(mem: Memory, tables: map<nat, Spot>, avail: set<nat>) {
    var holds :=
      && KernelTables(mem)
      && KPT !in avail && KPDPT !in avail && KPT !in tables && KPDPT !in tables
      && avail !! tables.Keys
      && forall p :: p in avail ==> IsPage(p);
    holds
  }

  lemma PagesStayOk(mem: Memory, tables: map<nat, Spot>, avail: set<nat>,
                    mem': Memory, tables': map<nat, Spot>, avail': set<nat>, root: nat)
    requires PagesOk(mem, tables, avail) && Grows(mem, tables, avail, mem', tables', avail', root)
    ensures PagesOk(mem', tables', avail')
  {
    assert SamePage(mem, mem', KPT) && SamePage(mem, mem', KPDPT);
  }

  lemma TableHasRoom(mem: Memory, root: nat, tables: map<nat, Spot>, avail: set<nat>, t: nat, n: nat)
    requires Ok(mem, root, tables) && PagesOk(mem, tables, avail) && t in tables && n in avail
    ensures IsPage(n) && n !in tables && n != t && Or(n, ENTRY_FLAGS) == n + ENTRY_FLAGS && tables[t].level >= 1
  {
    assert TableOk(mem, tables, t);
    JoinFlags(n, ENTRY_FLAGS);
  }

  lemma NewTableGrows(mem: Memory, root: nat, tables: map<nat, Spot>, avail: set<nat>, t: nat, i: nat, n: nat,
                      mem': Memory, tables': map<nat, Spot>)
    requires Ok(mem, root, tables) && PagesOk(mem, tables, avail) && n in avail
    requires Added(mem, tables, t, i, n, mem', tables')
    ensures Ok(mem', root, tables') && PagesOk(mem', tables', avail - {n})
    ensures Grows(mem, tables, avail, mem', tables', avail - {n}, root)
  {
    GrowsByOne(mem, root, tables, avail, t, i, n, mem', tables');
    PagesStayOk(mem, tables, avail, mem', tables', avail - {n}, root);
  }

  /** The table for va on this level exists. */
  ghost predicate HasAt(tables: map<nat, Spot>, level: nat, va: nat) {
    exists x :: OnPath(tables, x, level, va)
  }

  ghost predicate HasLast(tables: map<nat, Spot>, va: nat) {
    HasAt(tables, 4, va)
  }

  /** How many of the tables for va on levels 2 to level do not exist. */
  ghost function MissingTo(tables: map<nat, Spot>, level: nat, va: nat): (m: nat)
    ensures level >= 1 ==> m <= level - 1
  {
    if level <= 1 then 0 else MissingTo(tables, level - 1, va) + MissingAt(tables, level, va)
  }

  /** How many tables a map of va has to add. */
  ghost function Missing(tables: map<nat, Spot>, va: nat): (m: nat)
    ensures m <= 3
  {
    MissingTo(tables, 4, va)
  }

  /** A table has its parent: where the table of one level exists, those of the levels above do. */
  lemma {:induction false} HasAbove(mem: Memory, root: nat, tables: map<nat, Spot>, upper: nat, level: nat, va: nat)
    requires Ok(mem, root, tables) && 1 <= upper <= level <= 4 && HasAt(tables, level, va)
    ensures HasAt(tables, upper, va)
    decreases level
  {
    if upper < level {
      var x :| OnPath(tables, x, level, va);
      NextPrefix(va, level - 1);
      DigitsOf(Prefix(va, level - 1), Index(va, level - 1));
      var p := Parent(mem, root, tables, x);
      assert OnPath(tables, p, level - 1, va);
      HasAbove(mem, root, tables, upper, level - 1, va);
    }
  }

  lemma {:induction false} MissingGrows(tables: map<nat, Spot>, level: nat, va: nat)
    requires 1 <= level <= 4
    ensures MissingTo(tables, level, va) <= Missing(tables, va)
    decreases 4 - level
  {
    if level < 4 { MissingGrows(tables, level + 1, va); }
  }

  ghost function MissingAt(tables: map<nat, Spot>, level: nat, va: nat): nat {
    if HasAt(tables, level, va) then 0 else 1
  }

  /** The tables for va below this level exist as before. */
  ghost predicate SameDeeper(tables: map<nat, Spot>, tables': map<nat, Spot>, level: nat, va: nat) {
    forall l: nat {:trigger HasAt(tables', l, va)} :: l > level ==> (HasAt(tables', l, va) <==> HasAt(tables, l, va))
  }

  lemma DeeperSame(tables: map<nat, Spot>, n: nat, level: nat, va: nat)
    requires n !in tables && 1 <= level <= 4
    ensures SameDeeper(tables, tables[n := Spot(level, Prefix(va, level))], level, va)
  {
    var tables' := tables[n := Spot(level, Prefix(va, level))];
    forall l: nat {:trigger HasAt(tables', l, va)} | l > level ensures HasAt(tables', l, va) <==> HasAt(tables, l, va) {
      SameBelow(tables, n, level, va, l);
    }
  }

  /** A new table for va changes nothing about the levels below it. */
  lemma SameBelow(tables: map<nat, Spot>, n: nat, level: nat, va: nat, lower: nat)
    requires n !in tables && 1 <= level <= 4 && lower > level
    ensures HasAt(tables[n := Spot(level, Prefix(va, level))], lower, va) <==> HasAt(tables, lower, va)
  {
    var tables' := tables[n := Spot(level, Prefix(va, level))];
    if HasAt(tables, lower, va) {
      var x :| OnPath(tables, x, lower, va);
      assert OnPath(tables', x, lower, va);
    }
    if HasAt(tables', lower, va) {
      var x :| OnPath(tables', x, lower, va);
      assert OnPath(tables, x, lower, va);
    }
  }

  /** Where the table of the next level exists, the entry for it is not empty. */
  lemma ChildPresent(mem: Memory, root: nat, tables: map<nat, Spot>, x: nat, cur: nat, level: nat, va: nat)
    requires Ok(mem, root, tables) && OnPath(tables, cur, level, va) && level < 4 && OnPath(tables, x, level + 1, va)
    ensures HoldsTable(mem, cur) && mem[cur][Index(va, level)] != 0
  {
    NextPrefix(va, level);
    DigitsOf(Prefix(va, level), Index(va, level));
    var p := Parent(mem, root, tables, x);
    assert TableOk(mem, tables, cur);
    assert p in tables && SameSpot(tables, p, cur);
  }

  lemma AbsentIsEmpty(mem: Memory, root: nat, tables: map<nat, Spot>, cur: nat, level: nat, va: nat)
    requires Ok(mem, root, tables) && InUser(va) && OnPath(tables, cur, level, va) && level < 4
    requires HoldsTable(mem, cur) && !Present(mem[cur][Index(va, level)])
    ensures mem[cur][Index(va, level)] == 0 && !HasAt(tables, level + 1, va)
    ensures level == 1 ==> Index(va, level) == 32
  {
    Descend(mem, root, tables, cur, level, va);
    TableEntryFlags(7);
    var e := mem[cur][Index(va, level)];
    if e != 0 { TableEntryFlags(e); }
    if HasAt(tables, level + 1, va) {
      var x :| OnPath(tables, x, level + 1, va);
      ChildPresent(mem, root, tables, x, cur, level, va);
    }
  }

  /** Addresses of one page translate alike. */
  lemma {:induction false} WalkByPage(mem: Memory, table: nat, level: nat, va: nat, va': nat, w: bool, u: bool)
    requires 1 <= level <= 4 && va / PAGE == va' / PAGE
    ensures Walk(mem, table, level, va, w, u) == Walk(mem, table, level, va', w, u)
    decreases 4 - level
  {
    SameIndex(va, va', level);
    if HoldsTable(mem, table) && level < 4 {
      var e := mem[table][Index(va, level)];
      WalkByPage(mem, Base(e) % PHYSICAL, level + 1, va, va', w && Writable(e), u && User(e));
    }
  }

  lemma SameIndex(va: nat, va': nat, level: nat)
    requires 1 <= level <= 4 && va / PAGE == va' / PAGE
    ensures Index(va, level) == Index(va', level)
  {
    PageIndex(va, level);
    PageIndex(va', level);
  }

  lemma PageIndex(va: nat, level: nat)
    requires 1 <= level <= 4
    ensures Index(va, level) == ((va / PAGE) / (Span(level) / PAGE)) % 512
  {
    var k := va / PAGE;
    if level == 3 { assert va / 0x20_0000 == k / 512; }
    if level == 2 { assert va / 0x4000_0000 == k / 0x4_0000; }
    if level == 1 { assert va / 0x80_0000_0000 == k / 0x800_0000; }
  }

  /** Writing the entry for va moves that page and no other. */
  lemma MapOne(mem: Memory, root: nat, tables: map<nat, Spot>, t: nat, va: nat, e: nat, mem': Memory)
    requires Ok(mem, root, tables) && InUser(va) && OnPath(tables, t, 4, va) &&
        LeafSet(mem, tables, t, Index(va, 4), e, mem')
    ensures Ok(mem', root, tables)
    ensures forall v: nat {:trigger Lookup(mem', root, v)} :: InUser(v) && v / PAGE != va / PAGE ==>
        Lookup(mem', root, v) == Lookup(mem, root, v)
  {
    SetLeaf(mem, root, tables, t, Index(va, 4), e, mem');
    NextPrefix(va, 4);
    forall v: nat {:trigger Lookup(mem', root, v)} | InUser(v) && v / PAGE != va / PAGE
      ensures Lookup(mem', root, v) == Lookup(mem, root, v)
    {
      UserRoot(mem, root, tables, v);
      WalkAfterSet(mem, root, tables, t, Index(va, 4), e, mem', root, 1, v);
    }
  }

  /** pa | PTE_P | PTE_U | (prot & MMAP_WRITE ? PTE_W : 0); MMAP_WRITE is the same bit as PTE_W. */
  function LeafEntry(pa: nat, prot: nat): nat {
    Or(pa, PTE_P + PTE_U + (if And(prot, PTE_W) != 0 then PTE_W else 0))
  }

  lemma LeafEntryIs(pa: nat, prot: nat)
    requires pa % PAGE == 0 && pa < PHYSICAL
    ensures var e := LeafEntry(pa, prot);
            MapsPage(e) && Leaf(e) == Page(pa, Writable(prot), true)
  {
    var f := if Writable(prot) then 7 else 5;
    FlagTests(prot);
    JoinFlags(pa, f);
    LeafBits(pa, f);
  }

  lemma LeafBits(pa: nat, f: nat)
    requires pa % PAGE == 0 && pa < PHYSICAL && (f == 5 || f == 7)
    ensures pa + f < PHYSICAL && (pa + f) % PAGE == f && Leaf(pa + f) == Page(pa, f == 7, true)
  {
    FlagsOf(pa / PAGE, f);
    BaseOfEntry(pa, f);
    RoomForFlags(pa, f);
  }

  lemma RoomForFlags(pa: nat, f: nat)
    requires pa % PAGE == 0 && pa < PHYSICAL && f < PAGE
    ensures pa + f < PHYSICAL && pa % PHYSICAL == pa
  {
    DivModUnique(pa, PHYSICAL, 0, pa);
  }

  lemma WrittenPagesOk(mem: Memory, tables: map<nat, Spot>, avail: set<nat>, t: nat, i: nat, e: nat, mem': Memory)
    requires PagesOk(mem, tables, avail) && LeafSet(mem, tables, t, i, e, mem')
    ensures PagesOk(mem', tables, avail)
  {
  }

  // ---------------------------------------------------------------- tearing the tree down

  /** The tables at and below a spot, and those below its first i entries. */
  ghost function Subtree(tables: map<nat, Spot>, level: nat, prefix: nat): set<nat> {
    set x | x in tables && tables[x].level >= level && Up(tables[x], level) == prefix
  }

  ghost function Under(tables: map<nat, Spot>, level: nat, prefix: nat, i: nat): set<nat> {
    set x | x in tables && tables[x].level > level && prefix * 512 <= Up(tables[x], level + 1) < prefix * 512 + i
  }

  lemma UnderNext(tables: map<nat, Spot>, level: nat, prefix: nat, i: nat)
    ensures Under(tables, level, prefix, i + 1) ==
            Under(tables, level, prefix, i) + Subtree(tables, level + 1, prefix * 512 + i)
    ensures Under(tables, level, prefix, i) !! Subtree(tables, level + 1, prefix * 512 + i)
  {
  }

  /** No table hangs below an entry that is not marked present and user. */
  lemma NothingBelow(mem: Memory, root: nat, tables: map<nat, Spot>, t: nat, i: nat)
    requires Ok(mem, root, tables) && t in tables && i < 512 && HoldsTable(mem, t)
    requires tables[t].level >= 4 || !(Present(mem[t][i]) && User(mem[t][i]))
    ensures Subtree(tables, tables[t].level + 1, tables[t].prefix * 512 + i) == {}
  {
    var s := Spot(tables[t].level + 1, tables[t].prefix * 512 + i);
    forall x ensures x !in Subtree(tables, s.level, s.prefix) {
      if x in Subtree(tables, s.level, s.prefix) {
        assert TableOk(mem, tables, x);
        var a := Ancestor(mem, root, tables, x, s.level);
        EntryBelow(mem, root, tables, t, i, a);
      }
    }
  }

  lemma EntryBelow(mem: Memory, root: nat, tables: map<nat, Spot>, t: nat, i: nat, a: nat)
    requires Ok(mem, root, tables) && t in tables && i < 512 && HoldsTable(mem, t)
    requires a in tables && tables[a] == Spot(tables[t].level + 1, tables[t].prefix * 512 + i)
    ensures tables[t].level < 4 && Present(mem[t][i]) && User(mem[t][i])
  {
    assert TableOk(mem, tables, a) && TableOk(mem, tables, t);
    DigitsOf(tables[t].prefix, i);
    var p := Parent(mem, root, tables, a);
    assert p in tables && SameSpot(tables, p, t);
    BaseOfEntry(a, ENTRY_FLAGS);
    TableEntryFlags(mem[t][i]);
  }

  lemma UpStep(s: Spot, level: nat)
    requires s.level > level
    ensures Up(s, level) == Up(s, level + 1) / 512
    decreases s.level
  {
    if s.level > level + 1 { UpStep(Spot(s.level - 1, s.prefix / 512), level); }
  }

  lemma SubtreeIs(mem: Memory, root: nat, tables: map<nat, Spot>, t: nat)
    requires Ok(mem, root, tables) && t in tables
    ensures var s := tables[t]; Subtree(tables, s.level, s.prefix) == Under(tables, s.level, s.prefix, 512) + {t}
    ensures t !in Under(tables, tables[t].level, tables[t].prefix, 512)
  {
    var s := tables[t];
    forall x ensures x in Subtree(tables, s.level, s.prefix) <==> x in Under(tables, s.level, s.prefix, 512) + {t} {
      if x in tables && tables[x].level > s.level { UpStep(tables[x], s.level); }
      if x in tables && tables[x].level == s.level { assert tables[x].prefix == s.prefix ==> SameSpot(tables, x, t); }
    }
  }

  /** Everything hangs below the root. */
  lemma SubtreeOfRoot(mem: Memory, root: nat, tables: map<nat, Spot>)
    requires Ok(mem, root, tables)
    ensures Subtree(tables, 1, 0) == tables.Keys
  {
    forall x | x in tables ensures x in Subtree(tables, 1, 0) {
      assert TableOk(mem, tables, x);
      var a := Ancestor(mem, root, tables, x, 1);
      assert TableOk(mem, tables, a);
      RootOnly(mem, root, tables, a);
    }
  }

  lemma RootOnly(mem: Memory, root: nat, tables: map<nat, Spot>, a: nat)
    requires Ok(mem, root, tables) && a in tables && tables[a].level == 1
    ensures a == root
  {
    var p := Parent(mem, root, tables, a);
  }

  lemma UnderInSubtree(tables: map<nat, Spot>, level: nat, prefix: nat, i: nat)
    requires i < 512
    ensures Under(tables, level, prefix, i) <= Subtree(tables, level, prefix)
    ensures Subtree(tables, level + 1, prefix * 512 + i) <= Subtree(tables, level, prefix)
  {
    forall x | x in Under(tables, level, prefix, i + 1) ensures x in Subtree(tables, level, prefix) {
      UpStep(tables[x], level);
    }
    UnderNext(tables, level, prefix, i);
  }

  ghost function Below(tables: map<nat, Spot>, level: nat, pt: nat): set<nat>
    requires level <= 4 ==> pt in tables
  {
    if level > 4 then {} else Subtree(tables, level, tables[pt].prefix)
  }

  /** The pages given back so far, each once. */
  ghost predicate GivenBack(avail0: set<nat>, freed0: multiset<nat>, pages: set<nat>, avail: set<nat>,
          freed: multiset<nat>) {
    avail == avail0 + pages && freed == freed0 + multiset(pages)
  }

  lemma GiveMore(avail0: set<nat>, freed0: multiset<nat>, done: set<nat>, next: set<nat>, avail: set<nat>,
          freed: multiset<nat>, all: set<nat>)
    requires GivenBack(avail0, freed0, done, avail, freed) && done !! next && next <= all && all !! avail0
    ensures next !! avail
    ensures GivenBack(avail0, freed0, done + next, avail + next, freed + multiset(next))
  {
    JoinOnce(done, next);
  }

  lemma JoinOnce(a: set<nat>, b: set<nat>)
    requires a !! b
    ensures multiset(a + b) == multiset(a) + multiset(b)
  {
  }

  lemma ChildBelow(mem: Memory, root: nat, tables: map<nat, Spot>, t: nat, i: nat)
    requires Ok(mem, root, tables) && t in tables && i < 512 && HoldsTable(mem, t)
    requires Present(mem[t][i]) && User(mem[t][i])
    ensures tables[t].level < 4 ==>
        Base(mem[t][i]) in tables && tables[Base(mem[t][i])] == Spot(tables[t].level + 1, tables[t].prefix * 512 + i)
    ensures tables[t].level >= 4 ==> Subtree(tables, tables[t].level + 1, tables[t].prefix * 512 + i) == {}
  {
    assert TableOk(mem, tables, t) && EntryOk(tables, tables[t], i, mem[t][i]);
    if tables[t].level >= 4 { NothingBelow(mem, root, tables, t, i); }
    KernelEntryFlags(i);
  }

  lemma KernelEntryFlags(i: nat)
    ensures !User(KernelEntry(i))
  {
    assert KernelEntry(0) / 4 == 2048;
  }

  lemma PtrFlags(ptr: nat)
    requires ptr % PAGE == 5
    ensures Present(ptr) && User(ptr)
  {
    FlagsOf(ptr / PAGE, 5);
  }

  lemma FreshRoot(mem: Memory, root: nat, tables: map<nat, Spot>)
    requires IsPage(root) && HoldsTable(mem, root) && tables == map[root := Spot(1, 0)]
    requires forall i {:trigger mem[root][i]} :: 0 <= i < 512 ==> mem[root][i] == KernelEntry(i)
    ensures Ok(mem, root, tables)
    ensures forall v: nat {:trigger Lookup(mem, root, v)} :: InUser(v) ==> Lookup(mem, root, v) == Fault
  {
    forall i {:trigger mem[root][i]} | 0 <= i < 512 ensures EntryOk(tables, Spot(1, 0), i, mem[root][i]) {}
    assert TableOk(mem, tables, root);
    forall v: nat {:trigger Lookup(mem, root, v)} | InUser(v) ensures Lookup(mem, root, v) == Fault {
      assert Index(v, 1) == 32;
      assert mem[root][32] == 0;
    }
  }

  /** panic_on ends the machine; the call returns what it complained about. */
  datatype Outcome = Done | NoMemory | BadAddress | Unaligned | NotMapped | AlreadyMapped

  /** An address space and the memory its tables live in. */
  class AddrSpace {
    var mem: Memory
    var avail: set<nat>
    var freed: multiset<nat>
    var ptr: nat
    ghost var tables: map<nat, Spot>

    ghost predicate Valid()
      reads this
    {
      && ptr % PAGE == 5
      && Ok(mem, Base(ptr), tables) && PagesOk(mem, tables, avail)
    }

    /** What the processor finds with as->ptr in CR3. */
    ghost function Finds(va: nat): Translation
      reads this
    {
      Lookup(mem, Base(ptr), va)
    }

    /** pgallocz: a zeroed page, or none. */
    method PgAllocZ() returns (p: Option<nat>)
      modifies `mem, `avail
      ensures p == None <==> old(avail) == {}
      ensures p == None ==> mem == old(mem) && avail == old(avail)
      ensures p.Some? ==>
          p.value in old(avail) && avail == old(avail) - {p.value} && mem == old(mem)[p.value := seq(512, _ => 0)]
    {
      if avail == {} {
        p := None;
      } else {
        var n :| n in avail;
        avail := avail - {n};
        mem := mem[n := seq(512, _ => 0)];
        p := Some(n);
      }
    }

    /** The empty entry i of table cur gets a new table. */
    method NewTable(cur: nat, i: nat) returns (next: Option<nat>)
      requires Valid() && cur in tables && tables[cur].level < 4 && i < 512 && (tables[cur].level == 1 ==> i == 32)
      requires HoldsTable(mem, cur) && mem[cur][i] == 0
      modifies `mem, `avail, `tables
      ensures Valid() && Grows(old(mem), old(tables), old(avail), mem, tables, avail, Base(ptr))
      ensures next == None <==> old(avail) == {}
      ensures next == None ==> avail == {} && tables == old(tables)
      ensures next.Some? ==>
          next.value in old(avail) && avail == old(avail) - {next.value} && next.value !in old(tables)
      ensures next.Some? ==>
          tables == old(tables)[next.value := Spot(old(tables)[cur].level + 1, old(tables)[cur].prefix * 512 + i)]
      ensures next.Some? ==> next.value in mem && mem[next.value] == seq(512, _ => 0)
    {
      next := PgAllocZ();
      if next.Some? {
        var n := next.value;
        TableHasRoom(old(mem), Base(ptr), tables, old(avail), cur, n);
        var page: seq<nat> := mem[cur][i := Or(n, ENTRY_FLAGS)];
        mem := mem[cur := page];
        tables := tables[n := Spot(tables[cur].level + 1, tables[cur].prefix * 512 + i)];
        NewTableGrows(old(mem), Base(ptr), old(tables), old(avail), cur, i, n, mem, tables);
      }
    }

    /** One level of ptwalk: the table behind the entry for va, added when missing. */
    method NextTable(cur: nat, level: nat, va: nat) returns (next: Option<nat>)
      requires Valid() && InUser(va) && OnPath(tables, cur, level, va) && level < 4
      requires Finds(va) == Walk(mem, cur, level, va, true, true)
      modifies `mem, `avail, `tables
      ensures Valid() && Grows(old(mem), old(tables), old(avail), mem, tables, avail, Base(ptr))
      ensures next == None <==> old(avail) == {} && !HasAt(old(tables), level + 1, va)
      ensures next.Some? ==>
          OnPath(tables, next.value, level + 1, va) && Finds(va) == Walk(mem, next.value, level + 1, va, true, true)
      ensures next.Some? ==> |avail| + MissingAt(old(tables), level + 1, va) == |old(avail)|
      ensures HasAt(old(tables), level + 1, va) ==> mem == old(mem) && avail == old(avail) && tables == old(tables)
      ensures SameDeeper(old(tables), tables, level + 1, va)
    {
      IndexOfIsIndex(va, level);
      Descend(mem, Base(ptr), tables, cur, level, va);
      var index := IndexOf(va, level);
      var present := TestPresent(mem[cur][index]);
      if !present {
        next := AddNext(cur, level, va, index);
      } else {
        PresentLeads(mem, Base(ptr), tables, cur, level, va);
        next := Some(Base(mem[cur][index]));
        assert OnPath(tables, next.value, level + 1, va);
      }
    }

    method AddNext(cur: nat, level: nat, va: nat, index: nat) returns (next: Option<nat>)
      requires Valid() && InUser(va) && OnPath(tables, cur, level, va) && level < 4 && index == Index(va, level)
      requires HoldsTable(mem, cur) && !Present(mem[cur][index])
      requires Finds(va) == Walk(mem, cur, level, va, true, true)
      modifies `mem, `avail, `tables
      ensures Valid() && Grows(old(mem), old(tables), old(avail), mem, tables, avail, Base(ptr))
      ensures next == None <==> old(avail) == {}
      ensures next.Some? ==>
          OnPath(tables, next.value, level + 1, va) && Finds(va) == Walk(mem, next.value, level + 1, va, true, true)
      ensures next.Some? ==> |avail| + 1 == |old(avail)|
      ensures !HasAt(old(tables), level + 1, va) && SameDeeper(old(tables), tables, level + 1, va)
    {
      AbsentIsEmpty(mem, Base(ptr), tables, cur, level, va);
      UserRoot(mem, Base(ptr), tables, va);
      next := NewTable(cur, index);
      NextPrefix(va, level);
      if next.Some? {
        assert mem[next.value][Index(va, level + 1)] == 0;
        DeeperSame(old(tables), next.value, level + 1, va);
      }
    }

    /** The walk for va has come from this memory down to level: it added the tables that were
        missing so far, and nothing if none is. */
    ghost predicate WalkedTo(mem0: Memory, tables0: map<nat, Spot>, avail0: set<nat>, level: nat, va: nat)
      reads this
    {
      var holds :=
        && Grows(mem0, tables0, avail0, mem, tables, avail, Base(ptr))
        && |avail| + MissingTo(tables0, level, va) == |avail0|
        && SameDeeper(tables0, tables, level, va)
        && (HasLast(tables0, va) ==> mem == mem0 && avail == avail0 && tables == tables0);
      holds
    }

    method WalkOne(cur: nat, level: nat, va: nat, ghost mem0: Memory, ghost tables0: map<nat, Spot>,
            ghost avail0: set<nat>)
        returns (next: Option<nat>)
      requires Valid() && InUser(va) && OnPath(tables, cur, level, va) && level < 4
      requires Finds(va) == Walk(mem, cur, level, va, true, true)
      requires Ok(mem0, Base(ptr), tables0) && WalkedTo(mem0, tables0, avail0, level, va)
      modifies `mem, `avail, `tables
      ensures Valid()
      ensures next.Some? ==>
          OnPath(tables, next.value, level + 1, va) && Finds(va) == Walk(mem, next.value, level + 1, va, true, true)
      ensures next.Some? ==> WalkedTo(mem0, tables0, avail0, level + 1, va)
      ensures next == None ==> avail == {} && |avail0| < Missing(tables0, va) && !HasLast(tables0, va)
      ensures next == None ==> Grows(mem0, tables0, avail0, mem, tables, avail, Base(ptr))
    {
      ghost var mem1, tables1, avail1 := mem, tables, avail;
      if HasLast(tables0, va) { HasAbove(mem0, Base(ptr), tables0, level + 1, 4, va); }
      next := NextTable(cur, level, va);
      if next == None { MissingGrows(tables0, level + 1, va); }
      GrowsTwice(mem0, tables0, avail0, mem1, tables1, avail1, mem, tables, avail, Base(ptr));
    }

    /** ptwalk for a user address: the last-level table and index of its entry. Tables on the way
        are added when missing; no translation changes. !ok is the panic of an allocator with
        nothing left. */
    method PtWalk(va: nat) returns (ok: bool, t: nat, i: nat)
      requires Valid() && InUser(va)
      modifies `mem, `avail, `tables
      ensures Valid() && Grows(old(mem), old(tables), old(avail), mem, tables, avail, Base(ptr))
      ensures ok <==> |old(avail)| >= Missing(old(tables), va)
      ensures if ok then |avail| + Missing(old(tables), va) == |old(avail)| else avail == {}
      ensures ok ==>
          OnPath(tables, t, 4, va) && i == Index(va, 4) && HoldsTable(mem, t) && Finds(va) == Leaf(mem[t][i])
      ensures HasLast(old(tables), va) ==> ok && mem == old(mem) && avail == old(avail) && tables == old(tables)
    {
      ghost var mem0, tables0, avail0 := mem, tables, avail;
      var cur, level := Base(ptr), 1;
      UserRoot(mem, Base(ptr), tables, va);
      while level < 4
        invariant 1 <= level <= 4 && Valid() && OnPath(tables, cur, level, va)
        invariant Finds(va) == Walk(mem, cur, level, va, true, true)
        invariant WalkedTo(mem0, tables0, avail0, level, va)
      {
        var next := WalkOne(cur, level, va, mem0, tables0, avail0);
        if next == None { return false, 0, 0; }
        cur := next.value;
        level := level + 1;
      }
      IndexOfIsIndex(va, 4);
      assert TableOk(mem, tables, cur);
      ok, t, i := true, cur, IndexOf(va, 4);
    }

    /** The end of map: write the entry, and walk once more. */
    method Place(va: nat, t: nat, i: nat, e: nat)
      requires Valid() && InUser(va) && OnPath(tables, t, 4, va) && i == Index(va, 4)
      requires HoldsTable(mem, t)
      requires e == 0 || MapsPage(e)
      modifies `mem, `avail, `tables
      ensures Valid() && avail == old(avail) && tables == old(tables)
      ensures forall v: nat {:trigger Finds(v)} :: InUser(v) && v / PAGE == va / PAGE ==> Finds(v) == Leaf(e)
      ensures forall v: nat {:trigger Finds(v)} :: InUser(v) && v / PAGE != va / PAGE ==> Finds(v) == old(Finds(v))
      ensures forall p {:trigger SamePage(old(mem), mem, p)} :: p !in tables ==> SamePage(old(mem), mem, p)
    {
      var page: seq<nat> := mem[t][i := e];
      mem := mem[t := page];
      MapOne(old(mem), Base(ptr), tables, t, va, e, mem);
      WrittenPagesOk(old(mem), tables, avail, t, i, e, mem);
      assert HasLast(tables, va);
      label written:
      var ok, t', i' := PtWalk(va);
      assert TableOk(mem, tables, t) && SameSpot(tables, t, t');
      forall v: nat {:trigger Finds(v)} | InUser(v) && v / PAGE == va / PAGE ensures Finds(v) == Leaf(e) {
        WalkByPage(mem, Base(ptr), 1, v, va, true, true);
      }
    }

    /** The middle of map: what the entry says decides, and the entry is written. */
    method SetEntry(va: nat, pa: nat, prot: nat, t: nat, i: nat) returns (r: Outcome)
      requires Valid() && InUser(va) && pa < PHYSICAL && pa % PAGE == 0 && OnPath(tables, t, 4, va) && i == Index(va, 4)
      requires HoldsTable(mem, t) && Finds(va) == Leaf(mem[t][i])
      modifies `mem, `avail, `tables
      ensures Valid() && avail == old(avail) && tables == old(tables)
      ensures r == Done || r == NotMapped || r == AlreadyMapped
      ensures r == NotMapped <==> prot == 0 && old(Finds(va)) == Fault
      ensures r == AlreadyMapped <==> prot != 0 && old(Finds(va)) != Fault
      ensures r == Done ==> forall v: nat {:trigger Finds(v)} :: InUser(v) && v / PAGE == va / PAGE ==>
                Finds(v) == if prot == 0 then Fault else Page(pa, Writable(prot), true)
      ensures forall v: nat {:trigger Finds(v)} :: InUser(v) && (r != Done || v / PAGE != va / PAGE) ==>
          Finds(v) == old(Finds(v))
      ensures forall p {:trigger SamePage(old(mem), mem, p)} :: p !in tables ==> SamePage(old(mem), mem, p)
    {
      var e := mem[t][i];
      var present := TestPresent(e);
      if prot == 0 {
        if !present { return NotMapped; }
        e := 0;
      } else {
        if present { return AlreadyMapped; }
        LeafEntryIs(pa, prot);
        e := LeafEntry(pa, prot);
      }
      Place(va, t, i, e);
      r := Done;
    }

    /** map: afterwards the processor finds pa at va with the permission asked for, or nothing for
        MMAP_NONE, and every other user page as before. The missing tables on the way are added, at
        most three, and nothing else is taken; the panic of an empty allocator comes exactly when
        fewer pages are left than tables missing. */
    method Map(va: nat, pa: nat, prot: nat) returns (r: Outcome)
      requires Valid() && pa < PHYSICAL
      modifies `mem, `avail, `tables
      ensures Valid()
      ensures r == BadAddress <==> !InUser(va)
      ensures r == Unaligned <==> InUser(va) && !(va % PAGE == 0 && pa % PAGE == 0)
      ensures r == NoMemory <==>
                InUser(va) && va % PAGE == 0 && pa % PAGE == 0 && |old(avail)| < Missing(old(tables), va)
      ensures r == NotMapped ==> prot == 0 && old(Finds(va)) == Fault
      ensures r == AlreadyMapped ==> prot != 0 && old(Finds(va)) != Fault
      ensures r == Done ==> (prot == 0 <==> old(Finds(va)) != Fault)
      ensures r == Done ==> forall v: nat {:trigger Finds(v)} :: InUser(v) && v / PAGE == va / PAGE ==>
                Finds(v) == if prot == 0 then Fault else Page(pa, Writable(prot), true)
      ensures forall v: nat {:trigger Finds(v)} :: InUser(v) && (r != Done || v / PAGE != va / PAGE) ==>
          Finds(v) == old(Finds(v))
      ensures KeepsPages(old(tables), old(avail), tables, avail)
      ensures r == Done || r == NotMapped || r == AlreadyMapped ==> |avail| + Missing(old(tables), va) == |old(avail)|
      ensures forall p {:trigger SamePage(old(mem), mem, p)} :: p !in old(avail) && p !in old(tables) ==>
          SamePage(old(mem), mem, p)
    {
      if !InUser(va) { return BadAddress; }
      if va % PAGE != 0 || pa % PAGE != 0 { return Unaligned; }
      var ok, t, i := PtWalk(va);
      if !ok {
        GrowsKeepsPages(old(mem), old(tables), old(avail), mem, tables, avail, Base(ptr));
        return NoMemory;
      }
      ghost var walked := mem;
      GrowsKeepsPages(old(mem), old(tables), old(avail), mem, tables, avail, Base(ptr));
      r := SetEntry(va, pa, prot, t, i);
      forall p {:trigger SamePage(old(mem), mem, p)} | p !in old(avail) && p !in old(tables)
        ensures SamePage(old(mem), mem, p)
      {
        assert SamePage(old(mem), walked, p) && SamePage(walked, mem, p);
      }
    }

    /** pgfree; no page is given back twice. */
    method PgFree(p: nat)
      requires p !in avail
      modifies `avail, `freed
      ensures avail == old(avail) + {p} && freed == old(freed) + multiset{p}
    {
      avail := avail + {p};
      freed := freed + multiset{p};
    }

    /** teardown: gives back every table at and below pt, each exactly once, and nothing else. The
        spots of the tables are passed along as a ghost. */
    method Teardown(level: nat, pt: nat, ghost spots: map<nat, Spot>)
      requires Ok(mem, Base(ptr), tables) && spots == tables && 1 <= level <= 5
      requires level <= 4 ==> pt in spots && spots[pt].level == level
      requires avail !! Below(spots, level, pt)
      modifies `avail, `freed
      ensures GivenBack(old(avail), old(freed), Below(spots, level, pt), avail, freed)
      decreases 5 - level, 1
    {
      if level > 4 { return; }
      ghost var prefix := spots[pt].prefix;
      SubtreeIs(mem, Base(ptr), spots, pt);
      var index := 0;
      while index < 512
        invariant index <= 512
        invariant GivenBack(old(avail), old(freed), Under(spots, level, prefix, index), avail, freed)
      {
        TeardownEntry(level, pt, index, spots, old(avail), old(freed));
        index := index + 1;
      }
      FreeLast(pt, Under(spots, level, prefix, 512), old(avail), old(freed));
    }

    method FreeLast(pt: nat, ghost under: set<nat>, ghost avail0: set<nat>, ghost freed0: multiset<nat>)
      requires GivenBack(avail0, freed0, under, avail, freed) && pt !in under && pt !in avail0
      modifies `avail, `freed
      ensures GivenBack(avail0, freed0, under + {pt}, avail, freed)
    {
      GiveMore(avail0, freed0, under, {pt}, avail, freed, {pt});
      PgFree(pt);
    }

    /** Only entries with P and U are followed. */
    method TeardownEntry(level: nat, pt: nat, index: nat, ghost spots: map<nat, Spot>, ghost avail0: set<nat>,
            ghost freed0: multiset<nat>)
      requires Ok(mem, Base(ptr), tables) && spots == tables && 1 <= level <= 4 && index < 512
      requires pt in spots && spots[pt].level == level
      requires GivenBack(avail0, freed0, Under(spots, level, spots[pt].prefix, index), avail, freed)
      requires avail0 !! Below(spots, level, pt)
      modifies `avail, `freed
      ensures GivenBack(avail0, freed0, Under(spots, level, spots[pt].prefix, index + 1), avail, freed)
      decreases 5 - level, 0
    {
      ghost var prefix := spots[pt].prefix;
      ghost var done, next := Under(spots, level, prefix, index), Subtree(spots, level + 1, prefix * 512 + index);
      UnderNext(spots, level, prefix, index);
      UnderInSubtree(spots, level, prefix, index);
      GiveMore(avail0, freed0, done, next, avail, freed, Below(spots, level, pt));
      assert TableOk(mem, tables, pt);
      var e := mem[pt][index];
      var follow := TestPresentUser(e);
      if follow {
        ChildBelow(mem, Base(ptr), tables, pt, index);
        Teardown(level + 1, Base(e), spots);
      } else {
        NothingBelow(mem, Base(ptr), tables, pt, index);
      }
    }

    /** unprotect: every table that protect and map obtained goes back to the allocator, each once;
        no kernel table and no mapped page does. */
    method Unprotect()
      requires Valid()
      modifies `avail, `freed, `tables
      ensures PagesOk(mem, tables, avail) && tables == map[]
      ensures avail == old(avail) + old(tables.Keys) && freed == old(freed) + multiset(old(tables.Keys))
    {
      SubtreeOfRoot(mem, Base(ptr), tables);
      PtrFlags(ptr);
      var follow := TestPresentUser(ptr);
      if follow {
        Teardown(1, Base(ptr), tables);
      }
      forall p | p in tables ensures IsPage(p) { assert TableOk(mem, tables, p); }
      tables := map[];
    }

    /** protect: a root with the kernel's part and nothing of the user's. */
    method Protect() returns (ok: bool)
      requires PagesOk(mem, tables, avail) && tables == map[]
      modifies `mem, `avail, `ptr, `tables
      ensures !ok ==> old(avail) == {}
      ensures ok ==> Valid() && avail <= old(avail) && avail + tables.Keys == old(avail)
      ensures ok ==> forall v: nat {:trigger Finds(v)} :: InUser(v) ==> Finds(v) == Fault
      ensures forall p {:trigger SamePage(old(mem), mem, p)} :: p !in old(avail) ==> SamePage(old(mem), mem, p)
    {
      var upt := PgAllocZ();
      if upt == None { return false; }
      var root := upt.value;
      assert SamePage(old(mem), mem, KPT) && SamePage(old(mem), mem, KPDPT);
      var cur := 0;
      while cur != 0x80_0000_0000
        invariant cur == 0 || cur == 0x80_0000_0000
        invariant avail == old(avail) - {root} && root in old(avail)
        invariant HoldsTable(mem, root) && PagesOk(mem, map[], avail)
        invariant forall i {:trigger mem[root][i]} :: 0 <= i < 512 ==>
            mem[root][i] == if cur != 0 then KernelEntry(i) else 0
        invariant forall p {:trigger SamePage(old(mem), mem, p)} :: p !in old(avail) ==> SamePage(old(mem), mem, p)
        decreases 0x80_0000_0000 - cur
      {
        IndexOfIsIndex(cur, 1);
        var index := IndexOf(cur, 1);
        var page: seq<nat> := mem[root][index := mem[KPT][index]];
        label copying:
        mem := mem[root := page];
        forall p {:trigger SamePage(old(mem), mem, p)} | p !in old(avail) ensures SamePage(old(mem), mem, p) {
          assert SamePage(old(mem), old@copying(mem), p);
        }
        cur := cur + Span(1);
      }
      JoinFlags(root, 5);
      BaseOfEntry(root, 5);
      ptr := Or(root, 5);
      tables := map[root := Spot(1, 0)];
      FreshRoot(mem, root, tables);
      ok := true;
    }

    constructor (memory: Memory, pages: set<nat>)
      requires PagesOk(memory, map[], pages)
      ensures PagesOk(mem, tables, avail) && tables == map[] && mem == memory && avail == pages && freed == multiset{}
    {
      mem := memory;
      avail := pages;
      freed := multiset{};
      ptr := 0;
      tables := map[];
    }
  }
}
