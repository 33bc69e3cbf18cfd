/** The stage-2 context as an object: struct relm_stage2 and the functions that update it in place.
    Every method is tied to the function of the old state that specifies it; what those functions
    achieve is proved in Stage2Runs, Stage2Ram and Stage2Teardown.
*/
module Stage2Context {
  import opened Stage2Tables
  import T = Stage2Tables
  import R = Stage2Ram
  import D = Stage2Teardown

  class Context {
    const geo: Geometry
    const root: nat
    var mem: Heap
    var stats: Stats
    var alloc: seq<Option<nat>>
    var freed: seq<nat>

    function State(): Ctx
      reads this
    {
      Ctx(geo, root, mem, stats, alloc)
    }

    /** relm_stage2_context_create, once the root page is allocated. */
    constructor (geo: Geometry, root: nat, alloc: seq<Option<nat>>)
      ensures State() == Fresh(geo, root, alloc) && freed == []
    {
      this.geo, this.root := geo, root;
      mem := map[root := EmptyTable()];
      stats := Stats(0, 0, 0);
      this.alloc := alloc;
      freed := [];
    }

    method AllocTable() returns (page: Option<nat>)
      modifies this`mem, this`alloc
      ensures (State(), page) == T.AllocTable(old(State()))
    {
      if alloc == [] {
        return None;
      }
      page := alloc[0];
      alloc := alloc[1..];
      if page.Some? {
        mem := mem[page.value := EmptyTable()];
      }
    }

    method GetOrCreate(t: nat, i: nat) returns (child: Option<nat>)
      modifies this`mem, this`alloc
      ensures (State(), child) == T.GetOrCreate(old(State()), t, i)
    {
      var e := Entry(mem, t, i);
      if e.Table? {
        return Some(e.child);
      }
      child := AllocTable();
      if child.Some? {
        mem := SetEntry(mem, t, i, Table(child.value));
      }
    }

    method MapOne(ipa: nat, pa: nat, flags: bv64, leaf: nat) returns (ret: Errno)
      requires geo.start <= leaf
      modifies this`mem, this`alloc, this`stats
      ensures (State(), ret) == T.MapOne(old(State()), ipa, pa, flags, leaf)
    {
      var table: nat, level: nat := root, geo.start;
      while level < leaf
        invariant level <= leaf
        invariant Descend(State(), table, level, leaf, ipa) == Descend(old(State()), root, geo.start, leaf, ipa)
        invariant stats == old(stats)
      {
        var child := GetOrCreate(table, Index(ipa, level));
        if child.None? {
          return ENOMEM;
        }
        table, level := child.value, level + 1;
      }
      if Entry(mem, table, Index(ipa, leaf)).Invalid? {
        stats := CountMapped(stats, leaf);
      }
      mem := SetEntry(mem, table, Index(ipa, leaf), Leaf(pa, flags));
      return OK;
    }

    method Map(ipa: nat, pa: nat, flags: bv64, leaf: nat) returns (ret: Errno)
      requires geo.start <= leaf
      modifies this`mem, this`alloc, this`stats
      ensures (State(), ret) == T.Map(old(State()), ipa, pa, flags, leaf)
    {
      ret := MapCheck(geo, ipa, pa, flags, leaf);
      if ret == OK {
        ret := MapOne(ipa, pa, flags, leaf);
      }
    }

    method MapPage(ipa: nat, pa: nat, flags: bv64) returns (ret: Errno)
      requires geo.start <= 1
      modifies this`mem, this`alloc, this`stats
      ensures (State(), ret) == T.MapPage(old(State()), ipa, pa, flags)
    {
      ret := Map(ipa, pa, flags, 3);
    }

    method MapHugePage(ipa: nat, pa: nat, flags: bv64) returns (ret: Errno)
      requires geo.start <= 1
      modifies this`mem, this`alloc, this`stats
      ensures (State(), ret) == T.MapHugePage(old(State()), ipa, pa, flags)
    {
      if !Aligned(ipa, SIZE_2MB) || !Aligned(pa, SIZE_2MB) {
        return EINVAL;
      }
      ret := Map(ipa, pa, flags, 2);
    }

    /** relm_stage2_map_guest_ram_4kb. */
    method MapGuestRam4k(ws: seq<R.Window>, ipa: nat, pa: nat, size: nat, flags: bv64) returns (ret: Errno)
      requires geo.start <= 1
      modifies this`mem, this`alloc, this`stats
      ensures (State(), ret) == R.MapGuestRam4k(old(State()), ws, ipa, pa, size, flags)
    {
      if size == 0 || !Aligned(size, SIZE_4KB) {
        return EINVAL;
      }
      var offset := 0;
      while offset < size
        invariant R.Ram4kLoop(State(), ws, ipa, pa, size, flags, offset)
                  == R.Ram4kLoop(old(State()), ws, ipa, pa, size, flags, 0)
      {
        if !R.OverlapsMmio(ws, U64(ipa + offset), SIZE_4KB) {
          ret := MapPage(U64(ipa + offset), U64(pa + offset), flags);
          if ret != OK {
            return;
          }
        }
        offset := offset + SIZE_4KB;
      }
      return OK;
    }

    /** relm_stage2_map_guest_ram_huge. */
    method MapGuestRamHuge(ws: seq<R.Window>, ipa: nat, pa: nat, size: nat, flags: bv64) returns (ret: Errno)
      requires geo.start <= 1
      modifies this`mem, this`alloc, this`stats
      ensures (State(), ret) == R.MapGuestRamHuge(old(State()), ws, ipa, pa, size, flags)
    {
      if size == 0 || !Aligned(size, SIZE_4KB) {
        return EINVAL;
      }
      var end := U64(ipa + size);
      var address, physical := ipa, pa;
      while address < end
        invariant R.RamHugeLoop(State(), ws, address, physical, end, flags)
                  == R.RamHugeLoop(old(State()), ws, ipa, pa, end, flags)
      {
        var chunk := SIZE_2MB;
        if R.WholeStride(ws, address, physical, end) {
          ret := MapHugePage(address, physical, flags);
        } else {
          chunk := R.ChunkSize(address, end);
          ret := MapGuestRam4k(ws, address, physical, chunk, flags);
        }
        if ret != OK {
          return;
        }
        address, physical := address + chunk, U64(physical + chunk);
      }
      return OK;
    }

    /** s2_walk. */
    method Walk(ipa: nat) returns (w: WalkResult)
      ensures w == T.Walk(State(), ipa)
    {
      var table: nat, level: nat := root, geo.start;
      while level < 4
        invariant WalkFrom(mem, table, level, ipa) == T.Walk(State(), ipa)
      {
        var e := Entry(mem, table, Index(ipa, level));
        if e.Invalid? {
          return Hole;
        }
        if e.Leaf? {
          return if level == 0 then Corrupt else Found(level, e.pa, e.flags);
        }
        if level == 3 {
          return Corrupt;
        }
        table, level := e.child, level + 1;
      }
      return Hole;
    }

    method GetMapping(ipa: nat) returns (ret: Errno, pa: nat)
      ensures (ret, pa) == T.GetMapping(State(), ipa)
    {
      var w := Walk(ipa);
      match w
      case Hole => return ENOENT, 0;
      case Corrupt => return EINVAL, 0;
      case Found(level, base, _) => return OK, base + ipa % LevelSize(level);
    }

    method UnmapPage(ipa: nat) returns (ret: Errno)
      modifies this`mem, this`stats
      ensures (State(), ret) == T.UnmapPage(old(State()), ipa)
    {
      var w := Walk(ipa);
      if w.Hole? {
        return OK;
      }
      if w.Corrupt? || !Aligned(ipa, LevelSize(w.level)) {
        return EINVAL;
      }
      var table: nat, level: nat := root, geo.start;
      while level < w.level
        invariant LeafTable(mem, table, level, w.level, ipa) == LeafTable(mem, root, geo.start, w.level, ipa)
      {
        var e := Entry(mem, table, Index(ipa, level));
        table, level := if e.Table? then e.child else table, level + 1;
      }
      mem := SetEntry(mem, table, Index(ipa, w.level), Invalid);
      stats := CountUnmapped(stats, w.level);
      return OK;
    }

    /** What s2_free_table_tree does for one entry. */
    method FreeChild(table: nat, level: nat, i: nat)
      requires level < 3
      modifies this`freed
      ensures freed == old(freed) + D.FreeEntry(mem, table, level, i)
      decreases 3 - level, 0
    {
      hide D.FreeTree;
      var e := Entry(mem, table, i);
      if e.Table? {
        FreeTableTree(e.child, level + 1);
      }
    }

    /** s2_free_table_tree; terminates by level. */
    method FreeTableTree(table: nat, level: nat)
      requires level <= 3
      modifies this`freed
      ensures freed == old(freed) + D.FreeTree(mem, table, level)
      decreases 3 - level, 1
    {
      hide D.FreeTree, D.FreeEntry, D.FreeEntries;
      D.FreeTreeIs(mem, table, level);
      if level < 3 {
        var i := 0;
        while i < ENTRIES
          invariant i <= ENTRIES
          invariant freed + D.FreeEntries(mem, table, level, i) == old(freed) + D.FreeEntries(mem, table, level, 0)
        {
          D.FreeEntriesIs(mem, table, level, i);
          ghost var before := freed;
          FreeChild(table, level, i);
          Assoc(before, D.FreeEntry(mem, table, level, i), D.FreeEntries(mem, table, level, i + 1));
          i := i + 1;
        }
        D.FreeEntriesIs(mem, table, level, ENTRIES);
        Assoc(old(freed), D.FreeEntries(mem, table, level, 0), [table]);
      }
      freed := freed + [table];
    }
  }

  lemma Assoc(a: seq<nat>, b: seq<nat>, c: seq<nat>)
    ensures a + b + c == a + (b + c)
  {
  }
}
