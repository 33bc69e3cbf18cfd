/** The virtual-APIC page mirrors the register file in every reachable state; EOI retires vectors from
    the top; the timer counts down as its formula promises.
*/
module ApicProofs {
  import opened Apic

  // ---------------------------------------------------------------- the mirror

  /** Every bitmap word in the page is the bitmap's word. */
  ghost predicate BitmapsMirrored(a: State) {
    forall w: nat | w < WORDS ::
      && PageWord(a, ISR + w * 16) == Word(a.isr, w)
      && PageWord(a, TMR + w * 16) == Word(a.tmr, w)
      && PageWord(a, IRR + w * 16) == Word(a.irr, w)
  }

  ghost predicate RegistersMirrored(a: State) {
    && PageWord(a, ID) == a.id && PageWord(a, VERSION) == a.version
    && PageWord(a, TPR) == a.tpr && PageWord(a, PPR) == a.ppr
    && PageWord(a, EOI) == 0 && PageWord(a, RRD) == 0
    && PageWord(a, LDR) == a.ldr && PageWord(a, DFR) == a.dfr && PageWord(a, SVR) == a.svr && PageWord(a, ESR) == a.esr
    && PageWord(a, ICR_LOW) == WithoutPending(a.icrLow) && PageWord(a, ICR_HIGH) == a.icrHigh
    && PageWord(a, LVT_TIMER) == a.lvtTimer && PageWord(a, LVT_THERMAL) == a.lvtThermal
    && PageWord(a, LVT_PMC) == a.lvtPmc
    && PageWord(a, LVT_LINT0) == a.lvtLint0 && PageWord(a, LVT_LINT1) == a.lvtLint1
    && PageWord(a, LVT_ERROR) == a.lvtError
    && PageWord(a, TIMER_ICR) == a.timerIcr && PageWord(a, TIMER_DCR) == a.timerDcr
  }

  /** Page and registers agree, PPR is the demanded priority, and DCR holds one of the eight encodings. */
  ghost predicate Mirrored(a: State) {
    && BitmapsMirrored(a) && RegistersMirrored(a)
    && a.ppr == Priority(a)
    && a.timerDcr in {0, 1, 2, 3, 8, 9, 10, 11}
  }

  /** The offsets at which a hardware read from the page must give what relm_apic_read gives. */
  predicate Architectural(offset: nat) {
    || offset in {ID, VERSION, TPR, PPR, EOI, RRD, LDR, DFR, SVR, ESR, ICR_LOW, ICR_HIGH, LVT_TIMER,
                  LVT_THERMAL, LVT_PMC, LVT_LINT0, LVT_LINT1, LVT_ERROR, TIMER_ICR, TIMER_DCR}
    || (IsBitmap(offset) && offset % 16 == 0)
  }

  lemma {:induction false} PackNone(s: seq<bool>)
    requires forall i | 0 <= i < |s| :: !s[i]
    ensures Pack(s) == 0
    decreases |s|
  {
    if s != [] {
      PackNone(s[1..]);
    }
  }

  lemma InitBitmaps(apicId: nat)
    ensures BitmapsMirrored(Init(apicId))
  {
    hide Word;
    var a := Init(apicId);
    forall w: nat | w < WORDS
      ensures PageWord(a, ISR + w * 16) == Word(a.isr, w) && PageWord(a, TMR + w * 16) == Word(a.tmr, w)
           && PageWord(a, IRR + w * 16) == Word(a.irr, w)
    {
      NoWord(w);
      assert forall o | o in a.page :: o < ISR || o >= ESR;
    }
  }

  lemma NoWord(w: nat)
    requires w < WORDS
    ensures Word(NoBits(), w) == 0
  {
    PackNone(NoBits()[w * 32..w * 32 + 32]);
  }

  lemma InitRegisters(apicId: nat)
    ensures RegistersMirrored(Init(apicId))
  {
    hide NoBits;
  }

  lemma InitPriority(apicId: nat)
    ensures Init(apicId).ppr == Priority(Init(apicId))
  {
    assert Highest(NoBits()) == -1;
  }

  lemma InitMirrored(apicId: nat)
    ensures Mirrored(Init(apicId))
  {
    hide BitmapsMirrored, RegistersMirrored, Priority;
    InitBitmaps(apicId);
    InitRegisters(apicId);
    InitPriority(apicId);
  }

  lemma PageAfter(a: State, b: State, offset: nat, value: nat)
    requires b.page == a.page[offset := value]
    ensures PageWord(b, offset) == value && forall o: nat | o != offset :: PageWord(b, o) == PageWord(a, o)
  {
  }

  /** A write outside the bitmap area leaves the mirrored bitmaps alone. */
  lemma SyncKeepsBitmaps(a: State, b: State, offset: nat, value: nat)
    requires BitmapsMirrored(a) && !IsBitmap(offset)
    requires b.page == a.page[offset := value] && b.isr == a.isr && b.tmr == a.tmr && b.irr == a.irr
    ensures BitmapsMirrored(b)
  {
    forall w: nat | w < WORDS
      ensures PageWord(b, ISR + w * 16) == Word(b.isr, w) && PageWord(b, TMR + w * 16) == Word(b.tmr, w)
           && PageWord(b, IRR + w * 16) == Word(b.irr, w)
    {
      assert PageWord(a, ISR + w * 16) == Word(a.isr, w);
    }
  }

  lemma WordOther(b: Bits, v: nat, x: bool, w: nat)
    requires v < VECTORS && w < WORDS && w != v / 32
    ensures Word(b[v := x], w) == Word(b, w)
  {
    assert b[v := x][w * 32..w * 32 + 32] == b[w * 32..w * 32 + 32];
  }

  /** One bitmap changes in one vector, and its word is synced. */
  lemma BitmapSync(a: State, base: nat, v: nat, x: bool)
    requires BitmapsMirrored(a) && v < VECTORS && base in {ISR, TMR, IRR}
    ensures var bits := if base == ISR then a.isr else if base == TMR then a.tmr else a.irr;
            var bits' := bits[v := x];
            var b := if base == ISR then a.(isr := bits')
                     else if base == TMR then a.(tmr := bits')
                     else a.(irr := bits');
            BitmapsMirrored(Sync(b, base + v / 32 * 16, Word(bits', v / 32)))
  {
    hide Word;
    var bits := if base == ISR then a.isr else if base == TMR then a.tmr else a.irr;
    var bits' := bits[v := x];
    var b := if base == ISR then a.(isr := bits') else if base == TMR then a.(tmr := bits') else a.(irr := bits');
    var c := Sync(b, base + v / 32 * 16, Word(bits', v / 32));
    forall w: nat | w < WORDS
      ensures PageWord(c, ISR + w * 16) == Word(c.isr, w) && PageWord(c, TMR + w * 16) == Word(c.tmr, w)
           && PageWord(c, IRR + w * 16) == Word(c.irr, w)
    {
      assert PageWord(a, ISR + w * 16) == Word(a.isr, w);
      if w != v / 32 {
        WordOther(bits, v, x, w);
      }
    }
  }

  lemma PprUpdateKeeps(a: State)
    requires BitmapsMirrored(a) && a.timerDcr in {0, 1, 2, 3, 8, 9, 10, 11}
    requires RegistersMirrored(a.(ppr := PageWord(a, PPR)))
    ensures Mirrored(PprUpdate(a))
  {
    hide Word, Priority;
    SyncKeepsBitmaps(a, PprUpdate(a), PPR, Priority(a));
    SamePriority(a, PprUpdate(a));
  }

  lemma SamePriority(a: State, b: State)
    requires b.isr == a.isr && b.tpr == a.tpr
    ensures Priority(b) == Priority(a)
  {
  }

  /** Registers below the bitmaps do not notice a write into the bitmap area. */
  lemma RegistersApart(a: State, b: State, offset: nat, value: nat)
    requires RegistersMirrored(a) && IsBitmap(offset) && b.page == a.page[offset := value]
    requires b == a.(isr := b.isr, tmr := b.tmr, irr := b.irr, page := b.page)
    ensures RegistersMirrored(b)
  {
  }

  lemma EoiKeeps(a: State)
    requires Mirrored(a)
    ensures Mirrored(Eoi(a))
  {
    hide Word, Priority, RegistersMirrored, BitmapsMirrored;
    var v := Highest(a.isr);
    if v >= 0 {
      var a1 := a.(isr := a.isr[v := false]);
      var a2 := Sync(a1, ISR + v / 32 * 16, Word(a1.isr, v / 32));
      BitmapSync(a, ISR, v, false);
      RegistersApart(a, a2, ISR + v / 32 * 16, Word(a1.isr, v / 32));
      var b := a2.(tmr := a2.tmr[v := false]);
      var a3 := if a2.tmr[v] then Sync(b, TMR + v / 32 * 16, Word(b.tmr, v / 32)) else a2;
      if a2.tmr[v] {
        BitmapSync(a2, TMR, v, false);
        RegistersApart(a2, a3, TMR + v / 32 * 16, Word(b.tmr, v / 32));
      }
      FromRegisters(a3);
      PprUpdateKeeps(a3);
    }
  }

  lemma FromRegisters(a: State)
    requires RegistersMirrored(a)
    ensures RegistersMirrored(a.(ppr := PageWord(a, PPR)))
  {
    assert a.(ppr := PageWord(a, PPR)) == a;
  }

  lemma InjectKeeps(a: State, vector: nat, level: bool)
    requires Mirrored(a) && vector < VECTORS
    ensures Mirrored(Inject(a, vector, level))
  {
    hide Word, RegistersMirrored, BitmapsMirrored;
    var a1 := a.(irr := a.irr[vector := true]);
    var a2 := Sync(a1, IRR + vector / 32 * 16, Word(a1.irr, vector / 32));
    BitmapSync(a, IRR, vector, true);
    RegistersApart(a, a2, IRR + vector / 32 * 16, Word(a1.irr, vector / 32));
    var a3 := a2.(tmr := a2.tmr[vector := level]);
    var a4 := Sync(a3, TMR + vector / 32 * 16, Word(a3.tmr, vector / 32));
    BitmapSync(a2, TMR, vector, level);
    RegistersApart(a2, a4, TMR + vector / 32 * 16, Word(a3.tmr, vector / 32));
    assert a4 == Inject(a, vector, level);
    SamePriority(a, a4);
  }

  lemma SetErrorKeeps(a: State, bits: nat)
    requires Mirrored(a)
    ensures Mirrored(SetError(a, bits))
  {
    var a1 := a.(esrPending := OrByte(a.esrPending, bits % 256));
    assert Mirrored(a1) by {
      SamePriority(a, a1);
      assert forall w: nat | w < WORDS :: PageWord(a1, ISR + w * 16) == PageWord(a, ISR + w * 16);
    }
    if a.lvtError % 256 >= 16 {
      InjectKeeps(a1, a.lvtError % 256, false);
    }
  }

  /** One plain register and its page word change together. */
  lemma PlainWriteRegisters(a: State, offset: nat, value: nat, now: nat)
    requires RegistersMirrored(a) && offset !in {TPR, EOI}
    ensures RegistersMirrored(Write(a, offset, value, now).0)
  {
    hide PageWord, Priority, Eoi, PprUpdate;
    var b := Write(a, offset, value, now).0;
    if offset in b.page && b.page == a.page[offset := b.page[offset]] {
      PageAfter(a, b, offset, b.page[offset]);
    }
  }

  lemma SamePage(a: State, b: State)
    requires b.page == a.page
    ensures forall o: nat :: PageWord(b, o) == PageWord(a, o)
  {
  }

  lemma PlainWriteRest(a: State, offset: nat, value: nat, now: nat)
    requires offset !in {TPR, EOI}
    ensures var b := Write(a, offset, value, now).0;
            && b.isr == a.isr && b.tmr == a.tmr && b.irr == a.irr && b.tpr == a.tpr && b.ppr == a.ppr
            && (b.timerDcr == a.timerDcr || b.timerDcr in {0, 1, 2, 3, 8, 9, 10, 11})
  {
    hide Priority, Eoi, PprUpdate;
  }

  lemma PlainWritePage(a: State, offset: nat, value: nat, now: nat)
    requires offset !in {TPR, EOI}
    ensures var b := Write(a, offset, value, now).0;
            b.page == a.page || (!IsBitmap(offset) && offset in b.page && b.page == a.page[offset := b.page[offset]])
  {
    hide Priority, Eoi, PprUpdate, TopByte, WithoutPending;
  }

  lemma PlainWriteKeeps(a: State, offset: nat, value: nat, now: nat)
    requires Mirrored(a) && offset !in {TPR, EOI}
    ensures Mirrored(Write(a, offset, value, now).0)
  {
    hide Word, Priority, BitmapsMirrored, RegistersMirrored, Write;
    var b := Write(a, offset, value, now).0;
    PlainWriteRegisters(a, offset, value, now);
    PlainWriteRest(a, offset, value, now);
    PlainWritePage(a, offset, value, now);
    SamePriority(a, b);
    if b.page != a.page {
      SyncKeepsBitmaps(a, b, offset, b.page[offset]);
    } else {
      SameBitmaps(a, b);
    }
  }

  lemma SameBitmaps(a: State, b: State)
    requires BitmapsMirrored(a) && b.page == a.page && b.isr == a.isr && b.tmr == a.tmr && b.irr == a.irr
    ensures BitmapsMirrored(b)
  {
    hide Word;
    SamePage(a, b);
  }

  lemma TprWriteKeeps(a: State, value: nat)
    requires Mirrored(a)
    ensures Mirrored(PprUpdate(Sync(a.(tpr := value % 256), TPR, value % 256)))
  {
    hide Word, Priority, BitmapsMirrored, PageWord;
    var b := Sync(a.(tpr := value % 256), TPR, value % 256);
    PageAfter(a, b, TPR, value % 256);
    SyncKeepsBitmaps(a, b, TPR, value % 256);
    SamePage(b, b.(ppr := PageWord(b, PPR)));
    PprUpdateKeeps(b);
  }

  lemma EoiWriteKeeps(a: State)
    requires Mirrored(a)
    ensures Mirrored(Sync(Eoi(a), EOI, 0))
  {
    hide Word, Priority, BitmapsMirrored, PageWord, Eoi;
    EoiKeeps(a);
    var b := Eoi(a);
    PageAfter(b, Sync(b, EOI, 0), EOI, 0);
    SyncKeepsBitmaps(b, Sync(b, EOI, 0), EOI, 0);
    SamePriority(b, Sync(b, EOI, 0));
  }

  /** Every register write keeps page and registers in step. */
  lemma WriteKeeps(a: State, offset: nat, value: nat, now: nat)
    requires Mirrored(a)
    ensures Mirrored(Write(a, offset, value, now).0)
  {
    hide Mirrored, Eoi, PprUpdate;
    if offset == TPR {
      TprWriteKeeps(a, value);
    } else if offset == EOI {
      EoiWriteKeeps(a);
    } else {
      PlainWriteKeeps(a, offset, value, now);
    }
  }

  lemma CcrReadKeeps(a: State, value: nat)
    requires Mirrored(a)
    ensures Mirrored(Sync(a, TIMER_CCR, value))
  {
    hide Word, Priority, BitmapsMirrored, PageWord;
    var b := Sync(a, TIMER_CCR, value);
    PageAfter(a, b, TIMER_CCR, value);
    SyncKeepsBitmaps(a, b, TIMER_CCR, value);
    SamePriority(a, b);
  }

  lemma TprReadKeeps(a: State)
    requires Mirrored(a)
    ensures a.(tpr := PageWord(a, TPR)) == a
  {
  }

  lemma PprReadKeeps(a: State)
    requires Mirrored(a)
    ensures Mirrored(PprUpdate(a))
  {
    FromRegisters(a);
    PprUpdateKeeps(a);
  }

  lemma ReadKeeps(a: State, offset: nat, now: nat)
    requires Mirrored(a)
    ensures Mirrored(Read(a, offset, now).0)
  {
    hide Mirrored, Word, PprUpdate, Ccr, PageWord;
    TprReadKeeps(a);
    PprReadKeeps(a);
    CcrReadKeeps(a, Ccr(a, now));
  }

  /** In a mirrored state, reading an architectural register and reading its page word agree. */
  lemma ReadIsPage(a: State, offset: nat, now: nat)
    requires Mirrored(a) && Architectural(offset)
    ensures Read(a, offset, now).1 == PageWord(a, offset) && Read(a, offset, now).2 == OK
  {
    hide Word, Priority, PageWord, PprUpdate, Ccr;
    if IsBitmap(offset) {
      var w := (offset - (if offset < TMR then ISR else if offset < IRR then TMR else IRR)) / 16;
      assert w < WORDS;
      assert PageWord(a, ISR + w * 16) == Word(a.isr, w);
    }
  }

  // ---------------------------------------------------------------- reading back

  /** The writable registers, and what of a written value is kept. */
  predicate Writable(offset: nat) {
    offset in {ID, TPR, LDR, DFR, SVR, ICR_LOW, ICR_HIGH, LVT_TIMER, LVT_THERMAL, LVT_PMC, LVT_LINT0,
               LVT_LINT1, LVT_ERROR, TIMER_ICR, TIMER_DCR}
  }

  function Kept(offset: nat, value: nat): nat {
    if offset == ID || offset == LDR then TopByte(value)
    else if offset == TPR then value % 256
    else if offset == DFR then value / 0x1000_0000 * 0x1000_0000 + 0x0fff_ffff
    else if offset == ICR_LOW then WithoutPending(value)
    else if offset == TIMER_DCR then value % 4 + value / 8 % 2 * 8
    else value
  }

  /** Reading a writable register back gives the bits of the written value that the register keeps. */
  lemma WriteReadBack(a: State, offset: nat, value: nat, now: nat, later: nat)
    requires Mirrored(a) && Writable(offset)
    ensures var b := Write(a, offset, value, now).0;
            Read(b, offset, later).1 == Kept(offset, value) == PageWord(b, offset)
  {
    hide Mirrored, Word, Priority, TopByte, WithoutPending, Eoi, PprUpdate, Ccr, Read, PageWord;
    var b := Write(a, offset, value, now).0;
    WriteKeeps(a, offset, value, now);
    ReadIsPage(b, offset, later);
    if offset == TPR {
      TprReadBack(a, value);
    } else {
      PageAfter(a, b, offset, Kept(offset, value));
    }
  }

  lemma TprReadBack(a: State, value: nat)
    ensures PageWord(PprUpdate(Sync(a.(tpr := value % 256), TPR, value % 256)), TPR) == value % 256
  {
    hide Priority;
  }

  /** A plain register write is invisible through every other register, except that TPR shows in PPR. */
  lemma PlainElsewhere(a: State, offset: nat, value: nat, now: nat, other: nat, later: nat)
    requires Mirrored(a) && offset != EOI && Architectural(other) && other != offset
    requires !(offset == TPR && other == PPR)
    ensures Read(Write(a, offset, value, now).0, other, later).1 == Read(a, other, later).1
  {
    hide Mirrored, Read, Priority, Architectural;
    var b := Write(a, offset, value, now).0;
    WriteKeeps(a, offset, value, now);
    ReadIsPage(a, other, later);
    ReadIsPage(b, other, later);
    if offset != TPR {
      hide Write;
      PlainWritePage(a, offset, value, now);
    }
  }

  /** An EOI shows through EOI, PPR and the ISR and TMR words of the vector it retires, and nowhere else. */
  lemma EoiElsewhere(a: State, value: nat, now: nat, other: nat, later: nat)
    requires Mirrored(a) && Architectural(other) && other != EOI
    requires var v := Highest(a.isr); v < 0 || other !in {PPR, ISR + v / 32 * 16, TMR + v / 32 * 16}
    ensures Read(Write(a, EOI, value, now).0, other, later).1 == Read(a, other, later).1
  {
    hide Mirrored, Read, Priority, Architectural, Word, Highest;
    var b := Write(a, EOI, value, now).0;
    WriteKeeps(a, EOI, value, now);
    ReadIsPage(a, other, later);
    ReadIsPage(b, other, later);
    EoiPage(a, other);
  }

  lemma EoiPage(a: State, other: nat)
    requires other != EOI
    requires var v := Highest(a.isr); v < 0 || other !in {PPR, ISR + v / 32 * 16, TMR + v / 32 * 16}
    ensures PageWord(Sync(Eoi(a), EOI, 0), other) == PageWord(a, other)
  {
    hide Word, Priority, Highest;
    HighestSmall(a.isr);
  }

  lemma HighestSmall(b: Bits)
    ensures -1 <= Highest(b) < VECTORS
  {
  }

  /** An injection shows through the IRR and TMR words of its vector only. */
  lemma InjectElsewhere(a: State, vector: nat, level: bool, other: nat, later: nat)
    requires Mirrored(a) && vector < VECTORS && Architectural(other)
    requires other !in {IRR + vector / 32 * 16, TMR + vector / 32 * 16}
    ensures Read(Inject(a, vector, level), other, later).1 == Read(a, other, later).1
  {
    hide Mirrored, Read, Architectural, Word;
    InjectKeeps(a, vector, level);
    ReadIsPage(a, other, later);
    ReadIsPage(Inject(a, vector, level), other, later);
  }
}
