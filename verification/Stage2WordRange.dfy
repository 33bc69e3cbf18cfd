/** map_range and single pages over host memory: what was proved in Stage2Range holds of the words. */
module Stage2WordRange {
  import opened Stage2Tables
  import opened Stage2Bits
  import opened Stage2Format
  import opened Stage2Refinement
  import opened Stage2Ram
  import opened Stage2Range
  import opened Stage2Words
  import opened Stage2WordRuns
  import opened Stage2WordRam

  /** relm_stage2_map_range on words. */
  function MapRangeWords(h: Host, ipa: nat, pa: nat, size: nat, flags: bv64): (Host, Errno) {
    MapRam4kWords(h, [], ipa, pa, size, flags)
  }

  function MappedWords(h: Host, ipa: nat, pa: nat, size: nat, flags: bv64, off: nat): nat
    decreases size - off
  {
    if off >= size then off
    else
      var (h1, e) := CallWord(h, PageCall(U64(ipa + off), U64(pa + off), flags));
      if e != OK then off else MappedWords(h1, ipa, pa, size, flags, off + SIZE_4KB)
  }

  /** The bytes a call mapped: all, or up to the page that failed. */
  function DoneWords(h: Host, ipa: nat, pa: nat, size: nat, flags: bv64): nat {
    if size == 0 || !Aligned(size, SIZE_4KB) then 0 else MappedWords(h, ipa, pa, size, flags, 0)
  }

  lemma {:induction false} MappedSim(h: Host, c: Ctx, lv: Levels, ipa: nat, pa: nat, size: nat, flags: bv64, off: nat)
    requires Sim(h, c, lv) && FitRange(pa, size, flags, 3)
    ensures MappedWords(h, ipa, pa, size, flags, off) == Mapped(c, ipa, pa, size, flags, off)
    decreases size - off
  {
    hide Sim, CallWord, MapPage, FitRange, PageCall, FlagsFit, WordOf;
    if off < size {
      FitAt(pa, size, flags, 3, off);
      var lv' := PageSim(h, c, lv, U64(ipa + off), U64(pa + off), flags);
      var (h1, e) := CallWord(h, PageCall(U64(ipa + off), U64(pa + off), flags));
      if e == OK {
        MappedSim(h1, MapPage(c, U64(ipa + off), U64(pa + off), flags).0, lv', ipa, pa, size, flags, off + SIZE_4KB);
      }
    }
  }

  /** A 2 MiB block is found at `a`. */
  predicate BlockAtWord(h: Host, a: nat) {
    WalkHost(h, a).At? && WalkHost(h, a).level == 2
  }

  /** A translation after the first `done` bytes of a range: the range goes to its target, and of a block it met
      nothing else is left. */
  function AfterRange(h: Host, ipa: nat, pa: nat, done: nat, a: nat): (Errno, nat) {
    if ipa <= a < ipa + done then (OK, pa + (a - ipa))
    else if BlockAtWord(h, a) && Meets(a, ipa, done) then (ENOENT, 0)
    else MappingOf(h, a)
  }

  /** Every translation after any call of map_range, successful or not. */
  lemma RangeOfWords(h: Host, c: Ctx, lv: Levels, tab: Tree, f: Flat, ipa: nat, pa: nat, size: nat, flags: bv64)
    requires Agree(h, c, lv, tab, f) && FitRange(pa, size, flags, 3) && ipa < U64_MOD && pa < U64_MOD
    ensures var (h', ret) := MapRangeWords(h, ipa, pa, size, flags);
            var done := DoneWords(h, ipa, pa, size, flags);
            && (size > 0 && Aligned(size, SIZE_4KB) ==> done <= size && (ret == OK <==> done == size))
            && forall a: nat | a < Reach(h.geo.start) :: MappingOf(h', a) == AfterRange(h, ipa, pa, done, a)
  {
    hide Sim, Inv, Refines, FitRange, MapRam4kWords, MapRange, MappingOf, GetMapping, RangeImage, Reach, Meets, Walk,
      WalkHost, Mapped, MappedWords;
    SameStart(h, c, lv);
    MappedSim(h, c, lv, ipa, pa, size, flags, 0);
    var done := Done(c, ipa, pa, size, flags);
    var lv' := Map4kSim(h, c, lv, [], ipa, pa, size, flags);
    var h', c' := MapRangeWords(h, ipa, pa, size, flags).0, MapRange(c, ipa, pa, size, flags).0;
    RangeIs(c, ipa, pa, size, flags);
    var tab', f' := RangeResult(c, tab, f, ipa, pa, size, flags);
    if done > 0 {
      FirstAligned(c, ipa, pa, size, flags);
    }
    forall a: nat | a < Reach(h.geo.start)
      ensures MappingOf(h', a) == AfterRange(h, ipa, pa, done, a)
    {
      MappingSim(h, c, lv, a);
      MappingSim(h', c', lv', a);
      RangeMapping(c, c', ipa, pa, flags, done, a);
    }
  }

  lemma RangeIs(c: Ctx, ipa: nat, pa: nat, size: nat, flags: bv64)
    ensures MapRange(c, ipa, pa, size, flags) == MapGuestRam4k(c, [], ipa, pa, size, flags)
  {
  }

  /** Every address of the first `done` bytes already went to its target. */
  ghost predicate WasThere(h: Host, ipa: nat, pa: nat, done: nat) {
    forall a: nat | a < Reach(h.geo.start) && ipa <= a < ipa + done :: MappingOf(h, a) == (OK, pa + (a - ipa))
  }

  /** Every block that the first `done` bytes met is covered whole by them. */
  ghost predicate CoversBlocks(h: Host, ipa: nat, done: nat) {
    forall a: nat | a < Reach(h.geo.start) && BlockAtWord(h, a) && Meets(a, ipa, done) :: ipa <= a < ipa + done
  }

  /** Every translation is as before. */
  ghost predicate SameMappings(h: Host, h': Host) {
    forall a: nat | a < Reach(h.geo.start) :: MappingOf(h', a) == MappingOf(h, a)
  }

  lemma BlockIsMapped(h: Host, a: nat)
    ensures BlockAtWord(h, a) ==> MappingOf(h, a).0 == OK
  {
  }

  /** Any call of map_range, so also a failed one, leaves every translation as it was if and only if everything
      it mapped already went to its target and every block it met is covered whole by that. */
  lemma RollsBackOnWords(h: Host, c: Ctx, lv: Levels, tab: Tree, f: Flat, ipa: nat, pa: nat, size: nat, flags: bv64)
    requires Agree(h, c, lv, tab, f) && FitRange(pa, size, flags, 3) && ipa < U64_MOD && pa < U64_MOD
    ensures var h' := MapRangeWords(h, ipa, pa, size, flags).0;
            var done := DoneWords(h, ipa, pa, size, flags);
            SameMappings(h, h') <==> WasThere(h, ipa, pa, done) && CoversBlocks(h, ipa, done)
  {
    hide Agree, FitRange, MapRangeWords, DoneWords, MappingOf, Reach, Meets, BlockAtWord;
    RangeOfWords(h, c, lv, tab, f, ipa, pa, size, flags);
    forall a: nat
      ensures BlockAtWord(h, a) ==> MappingOf(h, a).0 == OK
    {
      BlockIsMapped(h, a);
    }
  }

  /** A call removes a mapping that was there before if and only if it met a block without covering it whole. */
  lemma RemovesOnWords(h: Host, c: Ctx, lv: Levels, tab: Tree, f: Flat, ipa: nat, pa: nat, size: nat, flags: bv64)
    requires Agree(h, c, lv, tab, f) && FitRange(pa, size, flags, 3) && ipa < U64_MOD && pa < U64_MOD
    ensures var h' := MapRangeWords(h, ipa, pa, size, flags).0;
            var done := DoneWords(h, ipa, pa, size, flags);
            (exists a: nat :: a < Reach(h.geo.start) && MappingOf(h, a).0 == OK && MappingOf(h', a).0 != OK) <==>
            !CoversBlocks(h, ipa, done)
  {
    hide Agree, FitRange, MapRangeWords, DoneWords, MappingOf, Reach, Meets, BlockAtWord;
    RangeOfWords(h, c, lv, tab, f, ipa, pa, size, flags);
    forall a: nat
      ensures BlockAtWord(h, a) ==> MappingOf(h, a).0 == OK
    {
      BlockIsMapped(h, a);
    }
  }

  /** A successful map_page changes a translation outside its own page if and only if that page lies in a live
      2 MiB block. */
  lemma PageReachesOutOnWords(h: Host, c: Ctx, lv: Levels, tab: Tree, f: Flat, ipa: nat, pa: nat, flags: bv64)
    requires Agree(h, c, lv, tab, f) && pa < U64_MOD && FlagsFit(WordOf(pa), flags, 3)
    requires CallWord(h, PageCall(ipa, pa, flags)).1 == OK
    ensures var h' := CallWord(h, PageCall(ipa, pa, flags)).0;
            (exists a: nat ::
               a < Reach(h.geo.start) && !(ipa <= a < ipa + SIZE_4KB) && MappingOf(h', a) != MappingOf(h, a)) <==>
            BlockAtWord(h, ipa)
  {
    hide Sim, Inv, Refines, CallWord, MapPage, MappingOf, GetMapping, Reach, Walk, WalkHost, WordOf, FlagsFit, PageCall;
    SameStart(h, c, lv);
    var lv' := PageSim(h, c, lv, ipa, pa, flags);
    var h', c' := CallWord(h, PageCall(ipa, pa, flags)).0, MapPage(c, ipa, pa, flags).0;
    forall a: nat
      ensures MappingOf(h, a) == GetMapping(c, a) && MappingOf(h', a) == GetMapping(c', a)
      ensures BlockAtWord(h, a) == BlockAt(c, a)
    {
      MappingSim(h, c, lv, a);
      MappingSim(h', c', lv', a);
    }
    PageReachesOut(c, tab, f, ipa, pa, flags);
  }
}
