/** What firmware sees through the fw_cfg ports: the directory round trip and the byte streams. */
module FwCfgProofs {
  import opened FwCfg

  /** Stored data has the size it was registered with. */
  ghost predicate ItemOk(it: Item) {
    && it.key < KEY_MOD && it.size <= MAX_ITEM_SIZE && it.cursor <= it.size
    && (it.data.Some? ==> |it.data.value| == it.size)
    && (IsFile(it) ==> 1 <= |it.name| <= 54 && forall i | 0 <= i < |it.name| :: it.name[i] != 0)
  }

  /** Keys are pairwise different and every item is in order. */
  ghost predicate DevOk(d: Dev) {
    && |d.items| <= MAX_ITEMS && d.nextKey < KEY_MOD
    && (forall i | 0 <= i < |d.items| :: ItemOk(d.items[i]))
    && (forall i, j | 0 <= i < j < |d.items| :: d.items[i].key != d.items[j].key)
  }

  lemma RegisterKeeps(d: Dev, key: nat, name: seq<byte>, data: Option<seq<byte>>, size: nat, memory: bool)
    requires DevOk(d) && key < KEY_MOD && (data.Some? ==> |data.value| == size)
    requires key >= FILE_FIRST ==> 1 <= |name| <= 54 && forall i | 0 <= i < |name| :: name[i] != 0
    ensures DevOk(Register(d, key, name, data, size, memory).0)
  {
  }

  /** Every registration of a file with a name of 1 to 54 bytes keeps the device in order. */
  lemma RegisterFileKeeps(d: Dev, name: seq<byte>, data: Option<seq<byte>>, size: nat, memory: bool)
    requires DevOk(d) && (data.Some? ==> |data.value| == size)
    requires |name| <= 54 && forall i | 0 <= i < |name| :: name[i] != 0
    ensures DevOk(RegisterFile(d, name, data, size, memory).0)
  {
    if name != [] {
      RegisterKeeps(d.(nextKey := (d.nextKey + 1) % KEY_MOD), d.nextKey, name, data, size, memory);
    }
  }

  datatype Registration =
    | Known(key: nat, data: Option<seq<byte>>, size: nat, memory: bool)
    | File(name: seq<byte>, data: Option<seq<byte>>, size: nat, memory: bool)

  ghost predicate RegistrationOk(r: Registration) {
    && (r.data.Some? ==> |r.data.value| == r.size)
    && (r.Known? ==> r.key < FILE_FIRST)
    && (r.File? ==> |r.name| <= 54 && forall i | 0 <= i < |r.name| :: r.name[i] != 0)
  }

  function RegisterAll(d: Dev, rs: seq<Registration>): Dev
    decreases |rs|
  {
    if rs == [] then d
    else
      var r := rs[0];
      RegisterAll(if r.Known? then Register(d, r.key, [], r.data, r.size, r.memory).0
                  else RegisterFile(d, r.name, r.data, r.size, r.memory).0, rs[1..])
  }

  /** Whatever is registered, in whatever order and with whatever failures, the device stays in order
      and the files registered earlier stay first. */
  lemma {:induction false} RegistrationsKeep(d: Dev, rs: seq<Registration>)
    requires DevOk(d) && forall i | 0 <= i < |rs| :: RegistrationOk(rs[i])
    ensures DevOk(RegisterAll(d, rs)) && d.items <= RegisterAll(d, rs).items
    decreases |rs|
  {
    if rs != [] {
      var r := rs[0];
      assert RegistrationOk(r);
      if r.Known? {
        RegisterKeeps(d, r.key, [], r.data, r.size, r.memory);
        RegistrationsKeep(Register(d, r.key, [], r.data, r.size, r.memory).0, rs[1..]);
      } else {
        RegisterFileKeeps(d, r.name, r.data, r.size, r.memory);
        RegistrationsKeep(RegisterFile(d, r.name, r.data, r.size, r.memory).0, rs[1..]);
      }
    }
  }

  // ---------------------------------------------------------------- the byte stream

  /** What is left to read of the selected item. */
  function Tail(d: Dev): seq<byte> {
    if d.selected.Some? && d.selected.value < |d.items|
       && d.items[d.selected.value].cursor <= |Contents(d.items[d.selected.value])|
    then Contents(d.items[d.selected.value])[d.items[d.selected.value].cursor..]
    else []
  }

  function Drop(s: seq<byte>, n: nat): seq<byte> {
    if n <= |s| then s[n..] else []
  }

  /** Reading moves cursors and nothing else. */
  ghost predicate SameButCursor(d: Dev, d': Dev) {
    && |d'.items| == |d.items| && d'.nextKey == d.nextKey
    && forall i | 0 <= i < |d.items| :: d'.items[i] == d.items[i].(cursor := d'.items[i].cursor)
  }

  lemma ReadStep(d: Dev)
    requires DevOk(d)
    ensures var (d', x) := Read(d);
            && DevOk(d') && SameButCursor(d, d')
            && x == (if Tail(d) == [] then 0 else Tail(d)[0]) && Tail(d') == Drop(Tail(d), 1)
  {
    if d.selected.Some? && d.selected.value < |d.items| {
      var it := d.items[d.selected.value];
      assert ItemOk(it);
    }
  }

  lemma PaddedStep(s: seq<byte>, n: nat)
    requires n > 0
    ensures Padded(s, n) == [if s == [] then 0 else s[0]] + Padded(Drop(s, 1), n - 1)
  {
  }

  lemma DropDrop(s: seq<byte>, a: nat, b: nat)
    ensures Drop(Drop(s, a), b) == Drop(s, a + b)
  {
  }

  lemma PaddedSplit(s: seq<byte>, a: nat, b: nat)
    ensures Padded(s, a) + Padded(Drop(s, a), b) == Padded(s, a + b)
  {
  }

  lemma {:induction false} InStream(d: Dev, size: nat, b: nat)
    requires DevOk(d) && b <= size
    ensures var (d', v) := InFrom(d, size, b);
            && DevOk(d') && SameButCursor(d, d')
            && Unpack(v, size - b) == Padded(Tail(d), size - b) && Tail(d') == Drop(Tail(d), size - b)
    decreases size - b
  {
    hide DevOk, Tail, Read;
    if b < size {
      ReadStep(d);
      var (d1, x) := Read(d);
      InStream(d1, size, b + 1);
      PaddedStep(Tail(d), size - b);
      DropDrop(Tail(d), 1, size - b - 1);
      var (d2, rest) := InFrom(d1, size, b + 1);
      assert Unpack(x + 256 * rest, size - b) == [x] + Unpack(rest, size - b - 1);
    }
  }

  function Power256(n: nat): nat {
    if n == 0 then 1 else 256 * Power256(n - 1)
  }

  lemma {:induction false} InBelow(d: Dev, size: nat, b: nat)
    requires b <= size
    ensures InFrom(d, size, b).1 < Power256(size - b)
    decreases size - b
  {
    if b < size {
      InBelow(Read(d).0, size, b + 1);
    }
  }

  /** The value of an IN fits the 32-bit result. */
  lemma InFits(d: Dev, size: Width)
    ensures In(d, size).1 < 0x1_0000_0000
  {
    hide InFrom;
    InBelow(d, size, 0);
    assert Power256(1) == 256 && Power256(2) == 0x1_0000 && Power256(4) == 0x1_0000_0000;
  }

  /** Any mix of INs delivers the rest of the selected item followed by zeros. */
  lemma {:induction false} InsStream(d: Dev, sizes: seq<Width>)
    requires DevOk(d)
    ensures var (d', vs) := Ins(d, sizes);
            && DevOk(d') && SameButCursor(d, d') && |vs| == |sizes|
            && (forall i | 0 <= i < |vs| :: vs[i] < 0x1_0000_0000)
            && UnpackAll(vs, sizes) == Padded(Tail(d), Sum(sizes))
    decreases |sizes|
  {
    hide DevOk, Tail, InFrom;
    if sizes != [] {
      InStream(d, sizes[0], 0);
      InFits(d, sizes[0]);
      var (d1, v) := In(d, sizes[0]);
      InsStream(d1, sizes[1..]);
      var (d2, vs) := Ins(d1, sizes[1..]);
      PaddedSplit(Tail(d), sizes[0], Sum(sizes[1..]));
      assert ([v] + vs)[1..] == vs;
    }
  }

  /** Selecting a key rewinds its item. */
  lemma SelectTail(d: Dev, k: nat)
    requires DevOk(d) && k < |d.items|
    ensures var d' := Select(d, d.items[k].key);
            DevOk(d') && SameButCursor(d, d') && Tail(d') == Contents(d.items[k])
  {
    KeyUnique(d, k);
  }

  lemma KeyUnique(d: Dev, k: nat)
    requires DevOk(d) && k < |d.items|
    ensures SlotOf(d.items, d.items[k].key, 0) == k
  {
    var j := SlotOf(d.items, d.items[k].key, 0);
    assert j <= k;
    assert d.items[j].key == d.items[k].key;
  }

  // ---------------------------------------------------------------- the directory round trip

  function ListingOf(it: Item): Listing {
    Listing(it.size, it.key, it.name)
  }

  lemma FromBe4(b: seq<byte>)
    requires |b| == 4
    ensures FromBe(b) == ((b[0] as nat * 256 + b[1] as nat) * 256 + b[2] as nat) * 256 + b[3] as nat
  {
    assert b[..3][..2][..1][..0] == [];
    assert b[..3][..2][..1] == [b[0]] && b[..3][..2] == [b[0], b[1]] && b[..3] == [b[0], b[1], b[2]];
    assert FromBe([b[0]]) == b[0];
    assert FromBe([b[0], b[1]]) == 256 * FromBe([b[0]]) + b[1];
    assert FromBe([b[0], b[1], b[2]]) == 256 * FromBe([b[0], b[1]]) + b[2];
  }

  lemma Be32RoundTrip(x: nat)
    requires x < 0x1_0000_0000
    ensures FromBe(Be32(x)) == x
  {
    hide FromBe;
    FromBe4(Be32(x));
    var x1 := x / 0x100;
    var x2 := x1 / 0x100;
    assert x / 0x1_0000 == x2 && x / 0x100_0000 == x2 / 0x100;
    assert x == x1 * 256 + x % 256 && x1 == x2 * 256 + x1 % 256 && x2 == x2 / 0x100 * 256 + x2 % 256;
  }

  lemma Be16RoundTrip(x: nat)
    requires x < 0x1_0000
    ensures FromBe(Be16(x)) == x
  {
    var b := Be16(x);
    assert b[..1] == [b[0]] && b[..1][..0] == [];
    assert FromBe([b[0]]) == b[0];
  }

  lemma {:induction false} NameRoundTrip(name: seq<byte>, pad: seq<byte>)
    requires (forall i | 0 <= i < |name| :: name[i] != 0) && |pad| > 0 && pad[0] == 0
    ensures CString(name + pad) == name
    decreases |name|
  {
    if name == [] {
      assert name + pad == pad;
    } else {
      assert (name + pad)[1..] == name[1..] + pad;
      NameRoundTrip(name[1..], pad);
    }
  }

  lemma EntryRoundTrip(it: Item)
    requires ItemOk(it) && IsFile(it)
    ensures |DirEntry(it)| == ENTRY_SIZE && ParseEntry(DirEntry(it)) == ListingOf(it)
  {
    var b := DirEntry(it);
    var pad := Zeros(NAME_FIELD - |it.name|);
    assert b[0..4] == Be32(it.size);
    assert b[4..6] == Be16(it.key);
    assert b[8..64] == it.name + pad;
    Be32RoundTrip(it.size);
    Be16RoundTrip(it.key);
    NameRoundTrip(it.name, pad);
  }

  lemma {:induction false} FilesOk(items: seq<Item>)
    requires forall i | 0 <= i < |items| :: ItemOk(items[i])
    ensures forall i | 0 <= i < |Files(items)| ::
          ItemOk(Files(items)[i]) && IsFile(Files(items)[i]) && Files(items)[i] in items
    decreases |items|
  {
    if items != [] {
      FilesOk(items[1..]);
    }
  }

  lemma {:induction false} EntrySlice(fs: seq<Item>, k: nat)
    requires k < |fs| && forall i | 0 <= i < |fs| :: |DirEntry(fs[i])| == ENTRY_SIZE
    ensures |Entries(fs)| == ENTRY_SIZE * |fs|
    ensures Entries(fs)[k * ENTRY_SIZE..(k + 1) * ENTRY_SIZE] == DirEntry(fs[k])
    decreases |fs|
  {
    hide DirEntry;
    var head, rest := DirEntry(fs[0]), Entries(fs[1..]);
    if |fs| > 1 {
      EntrySlice(fs[1..], if k == 0 then 0 else k - 1);
    }
    if k == 0 {
      assert (head + rest)[0..ENTRY_SIZE] == head;
    } else {
      assert (head + rest)[k * ENTRY_SIZE..(k + 1) * ENTRY_SIZE] == rest[(k - 1) * ENTRY_SIZE..k * ENTRY_SIZE];
    }
  }

  lemma {:induction false} EntriesLength(fs: seq<Item>)
    requires forall i | 0 <= i < |fs| :: |DirEntry(fs[i])| == ENTRY_SIZE
    ensures |Entries(fs)| == ENTRY_SIZE * |fs|
    decreases |fs|
  {
    hide DirEntry;
    if fs != [] {
      EntriesLength(fs[1..]);
    }
  }

  lemma {:induction false} ParseFromIs(fs: seq<Item>, b: seq<byte>, k: nat)
    requires k <= |fs| && forall i | 0 <= i < |fs| :: ItemOk(fs[i]) && IsFile(fs[i])
    requires |b| >= 4 + ENTRY_SIZE * |fs| && |Entries(fs)| == ENTRY_SIZE * |fs|
    requires b[4..4 + ENTRY_SIZE * |fs|] == Entries(fs)
    ensures |ParseFrom(b, |fs|, k)| == |fs| - k
    ensures forall i | k <= i < |fs| :: ParseFrom(b, |fs|, k)[i - k] == ListingOf(fs[i])
    decreases |fs| - k
  {
    hide DirEntry, ItemOk, IsFile, ParseEntry, Entries;
    if k < |fs| {
      ParseFromIs(fs, b, k + 1);
      ParseOne(fs, b, k);
    }
  }

  lemma SliceOfSlice(b: seq<byte>, at: nat, n: nat, lo: nat, hi: nat)
    requires lo <= hi <= n && at + n <= |b|
    ensures b[at + lo..at + hi] == b[at..at + n][lo..hi]
  {
    var x, y := b[at + lo..at + hi], b[at..at + n][lo..hi];
    assert forall i | 0 <= i < hi - lo :: x[i] == b[at + lo + i] && y[i] == b[at..at + n][lo + i];
    assert x == y;
  }

  lemma ParseOne(fs: seq<Item>, b: seq<byte>, k: nat)
    requires k < |fs| && forall i | 0 <= i < |fs| :: ItemOk(fs[i]) && IsFile(fs[i])
    requires |b| >= 4 + ENTRY_SIZE * |fs| && |Entries(fs)| == ENTRY_SIZE * |fs|
    requires b[4..4 + ENTRY_SIZE * |fs|] == Entries(fs)
    ensures ParseEntry(b[4 + k * ENTRY_SIZE..4 + (k + 1) * ENTRY_SIZE]) == ListingOf(fs[k])
  {
    hide DirEntry, ParseEntry, Entries, ItemOk, IsFile;
    forall i | 0 <= i < |fs|
      ensures |DirEntry(fs[i])| == ENTRY_SIZE
    {
      EntryRoundTrip(fs[i]);
    }
    EntryRoundTrip(fs[k]);
    EntrySlice(fs, k);
    SliceOfSlice(b, 4, ENTRY_SIZE * |fs|, k * ENTRY_SIZE, (k + 1) * ENTRY_SIZE);
  }

  /** Parsing the directory bytes, with anything after them, lists the files in registration order. */
  lemma DirRoundTrip(items: seq<Item>, b: seq<byte>)
    requires (forall i | 0 <= i < |items| :: ItemOk(items[i])) && |items| < 0x1_0000
    requires |b| >= |DirBytes(items)| && b[..|DirBytes(items)|] == DirBytes(items)
    ensures |DirBytes(items)| == 4 + ENTRY_SIZE * |Files(items)|
    ensures |ParseDir(b)| == |Files(items)|
    ensures forall k | 0 <= k < |Files(items)| :: ParseDir(b)[k] == ListingOf(Files(items)[k])
  {
    hide DirEntry, ParseEntry, Entries;
    var fs := Files(items);
    FilesOk(items);
    forall i | 0 <= i < |fs|
      ensures |DirEntry(fs[i])| == ENTRY_SIZE
    {
      EntryRoundTrip(fs[i]);
    }
    EntriesLength(fs);
    var dir := DirBytes(items);
    assert b[0..4] == dir[0..4] == Be32(|fs|);
    Be32RoundTrip(|fs|);
    assert b[4..4 + ENTRY_SIZE * |fs|] == dir[4..] == Entries(fs);
    ParseFromIs(fs, b, 0);
  }

  // ---------------------------------------------------------------- end to end

  /** Building registers exactly the directory of the files present, under its own key. */
  lemma BuildRegisters(d: Dev, buffer: bool, memory: bool)
    requires DevOk(d) && |d.items| < MAX_ITEMS && !HasKey(d.items, FILE_DIR)
    requires BuildFileDir(d, buffer, memory).1 == OK
    ensures var d1 := BuildFileDir(d, buffer, memory).0;
            && DevOk(d1) && |d1.items| == |d.items| + 1 && d1.items[..|d.items|] == d.items
            && d1.items[|d.items|].key == FILE_DIR && Contents(d1.items[|d.items|]) == DirBytes(d.items)
  {
    DirSize(d.items);
  }

  lemma DirSize(items: seq<Item>)
    requires (forall i | 0 <= i < |items| :: ItemOk(items[i])) && |items| <= MAX_ITEMS
    ensures 4 <= |DirBytes(items)| <= MAX_ITEM_SIZE
  {
    hide ItemOk;
    DirRoundTrip(items, DirBytes(items));
  }

  /** The bytes of the directory item, if there is one. */
  function DirectoryItem(items: seq<Item>): Option<seq<byte>> {
    var k := SlotOf(items, FILE_DIR, 0);
    if k < |items| then Some(Contents(items[k])) else None
  }

  /** The directory of a registry lists exactly its files. */
  predicate DirectoryCurrent(items: seq<Item>) {
    DirectoryItem(items) == Some(DirBytes(items))
  }

  /** After a build that reports success the directory is current if and only if there was none before or it
      already was current. */
  lemma CurrentAfterBuild(d: Dev, buffer: bool, memory: bool)
    requires DevOk(d) && BuildFileDir(d, buffer, memory).1 == OK
    ensures DirectoryCurrent(BuildFileDir(d, buffer, memory).0.items) <==>
            DirectoryItem(d.items).None? || DirectoryCurrent(d.items)
  {
    hide DirBytes, DevOk;
    ItemsOf(d);
    DirSize(d.items);
    var dir := DirBytes(d.items);
    var d1 := BuildFileDir(d, buffer, memory).0;
    if !HasKey(d.items, FILE_DIR) {
      assert d1.items == d.items + [Item(FILE_DIR, [], Some(dir), |dir|, 0)];
      assert forall i | 0 <= i < |d.items| :: d1.items[i] == d.items[i];
      assert d1.items[|d.items|].key == FILE_DIR;
      SameDirectory(d.items, d1.items[|d.items|]);
    }
  }

  lemma ItemsOf(d: Dev)
    requires DevOk(d)
    ensures (forall i | 0 <= i < |d.items| :: ItemOk(d.items[i])) && |d.items| <= MAX_ITEMS
  {
  }

  /** An item that is no file does not change the directory. */
  lemma SameDirectory(items: seq<Item>, it: Item)
    requires !IsFile(it)
    ensures DirBytes(items + [it]) == DirBytes(items)
  {
    FilesAppend(items, it);
    assert Files(items) + [] == Files(items);
  }

  lemma {:induction false} FilesAppend(items: seq<Item>, it: Item)
    ensures Files(items + [it]) == Files(items) + (if IsFile(it) then [it] else [])
    decreases |items|
  {
    if items == [] {
      assert items + [it] == [it];
      assert Files([it]) == if IsFile(it) then [it] + Files([it][1..]) else Files([it][1..]);
    } else {
      assert (items + [it])[1..] == items[1..] + [it];
      FilesAppend(items[1..], it);
    }
  }

  /** Build, register one file, build again: both builds report success and the directory still lists none. */
  lemma StaleDirectory(name: seq<byte>, data: seq<byte>)
    requires 1 <= |name| <= 54 && (forall i | 0 <= i < |name| :: name[i] != 0) && |data| <= MAX_ITEM_SIZE
    ensures var d1 := BuildFileDir(EMPTY, true, true);
            var d2 := RegisterFile(d1.0, name, Some(data), |data|, true);
            var d3 := BuildFileDir(d2.0, true, true);
            d1.1 == d2.1 == d3.1 == OK && !DirectoryCurrent(d3.0.items)
  {
    hide DirBytes;
    var d1 := BuildFileDir(EMPTY, true, true).0;
    EmptyBuild();
    var d2 := RegisterFile(d1, name, Some(data), |data|, true).0;
    var it := Item(FILE_FIRST, name, if |data| > 0 then Some(data) else None, |data|, 0);
    assert d2.items == d1.items + [it] && SlotOf(d2.items, FILE_DIR, 0) == 0;
    assert DevOk(d2);
    DirSize(d2.items);
    assert BuildFileDir(d2, true, true) == (d2, OK);
    LongerDirectory(d1.items, it);
    assert d2.items[0] == d1.items[0];
  }

  lemma EmptyBuild()
    ensures var (d, e) := BuildFileDir(EMPTY, true, true);
            && e == OK && |d.items| == 1 && d.items[0] == Item(FILE_DIR, [], Some(DirBytes([])), 4, 0)
            && d.nextKey == FILE_FIRST
            && DevOk(d) && |DirBytes([])| == 4
  {
    assert Files([]) == [] && Entries([]) == [];
    assert |DirBytes([])| == 4;
  }

  lemma LongerDirectory(items: seq<Item>, it: Item)
    requires IsFile(it) && ItemOk(it) && |items| == 1 && items[0].key == FILE_DIR && ItemOk(items[0])
    ensures DirBytes(items + [it]) != DirBytes([])
  {
    assert Files(items) == Files(items[1..]) == [];
    FilesAppend(items, it);
    DirRoundTrip(items + [it], DirBytes(items + [it]));
    DirRoundTrip([], DirBytes([]));
  }

  /** A file registration moves the next key exactly when its name passes; when it then fails, for whatever
      reason, a key is used up and the registry is as before. */
  lemma KeysUsedUp(d: Dev, name: seq<byte>, data: Option<seq<byte>>, size: nat, memory: bool)
    requires d.nextKey < KEY_MOD
    ensures var (d', e) := RegisterFile(d, name, data, size, memory);
            && (d'.nextKey != d.nextKey <==> 1 <= |name| <= MAX_NAME_LEN)
            && (e != OK ==> d' == d.(nextKey := d'.nextKey))
            && (e != OK && d'.nextKey != d.nextKey <==>
                1 <= |name| <= MAX_NAME_LEN
                && (size > MAX_ITEM_SIZE || |d.items| >= MAX_ITEMS || HasKey(d.items, d.nextKey)
                    || (size > 0 && data.Some? && !memory)))
  {
  }

  /** A file that was registered is listed if and only if its key is a file key; keys wrap at 2^16. */
  lemma ListedIffFileKey(d: Dev, name: seq<byte>, data: Option<seq<byte>>, size: nat, memory: bool)
    requires RegisterFile(d, name, data, size, memory).1 == OK
    ensures var d' := RegisterFile(d, name, data, size, memory).0;
            && |d'.items| == |d.items| + 1 && d'.items[|d.items|].key == d.nextKey
            && Files(d'.items) == Files(d.items) + (if d.nextKey >= FILE_FIRST then [d'.items[|d.items|]] else [])
  {
    var d' := RegisterFile(d, name, data, size, memory).0;
    FilesAppend(d.items, d'.items[|d.items|]);
    assert d'.items == d.items + [d'.items[|d.items|]];
  }

  /** A file too large to be taken: the attempt fails and uses up a key. */
  const TOO_LARGE: Registration := File([65], None, MAX_ITEM_SIZE + 1, true)

  lemma {:induction false} KeysAdvance(d: Dev, n: nat)
    requires d.nextKey < KEY_MOD
    ensures RegisterAll(d, seq(n, _ => TOO_LARGE)) == d.(nextKey := (d.nextKey + n) % KEY_MOD)
    decreases n
  {
    var rs := seq(n, _ => TOO_LARGE);
    if n > 0 {
      assert rs[1..] == seq(n - 1, _ => TOO_LARGE);
      KeysAdvance(d.(nextKey := (d.nextKey + 1) % KEY_MOD), n - 1);
    }
  }

  /** After 0x8000 such attempts the next file is registered with OK under key 0 and never listed. */
  lemma WrappedKeyUnlisted()
    ensures var d := RegisterAll(EMPTY, seq(0x8000, _ => TOO_LARGE));
            var (d', e) := RegisterFile(d, [66], Some([1]), 1, true);
            e == OK && |d'.items| == 1 && d'.items[0].key == 0 && Files(d'.items) == []
  {
    hide RegisterAll;
    KeysAdvance(EMPTY, 0x8000);
    var d := RegisterAll(EMPTY, seq(0x8000, _ => TOO_LARGE));
    assert d == EMPTY.(nextKey := 0);
    ListedIffFileKey(d, [66], Some([1]), 1, true);
    assert Files(d.items) == [];
  }

  /** Such a registration: an item of 4097 bytes under the first file key. */
  lemma KeyLost()
    ensures RegisterFile(EMPTY, [65], None, MAX_ITEM_SIZE + 1, true) == (EMPTY.(nextKey := FILE_FIRST + 1), EINVAL)
  {
  }

  /** Registry state as the driver may find it after reading: only cursors and the selection moved. */
  lemma SameTrans(a: Dev, b: Dev, c: Dev)
    requires SameButCursor(a, b) && SameButCursor(b, c)
    ensures SameButCursor(a, c)
  {
  }

  /** Select a key that is in the registry, then read through any mix of INs. */
  lemma SelectAndRead(d: Dev, k: nat, sizes: seq<Width>)
    requires DevOk(d) && k < |d.items|
    ensures var (d', vs) := Ins(Select(d, d.items[k].key), sizes);
            && DevOk(d') && SameButCursor(d, d')
            && UnpackAll(vs, sizes) == Padded(Contents(d.items[k]), Sum(sizes))
  {
    hide DevOk, Select, Ins, Tail, SameButCursor;
    SelectTail(d, k);
    InsStream(Select(d, d.items[k].key), sizes);
    SameTrans(d, Select(d, d.items[k].key), Ins(Select(d, d.items[k].key), sizes).0);
  }

  lemma {:induction false} FileIndex(items: seq<Item>, i: nat) returns (k: nat)
    requires i < |Files(items)|
    ensures k < |items| && items[k] == Files(items)[i]
    decreases |items|
  {
    if IsFile(items[0]) && i == 0 {
      k := 0;
    } else {
      k := FileIndex(items[1..], if IsFile(items[0]) then i - 1 else i);
      k := k + 1;
    }
  }

  /** End to end. After the directory is built: select FILE_DIR, read it through any mix of INs that
      covers it, parse it big-endian; the listing is the files in registration order. Then select any
      listed key and read through any mix of INs: the bytes are that file's bytes followed by zeros. */
  lemma EndToEnd(d: Dev, buffer: bool, memory: bool, dirSizes: seq<Width>, i: nat, fileSizes: seq<Width>)
    requires DevOk(d) && |d.items| < MAX_ITEMS && !HasKey(d.items, FILE_DIR)
    requires BuildFileDir(d, buffer, memory).1 == OK
    requires Sum(dirSizes) >= |DirBytes(d.items)| && i < |Files(d.items)|
    ensures var (d2, vs) := Ins(Select(BuildFileDir(d, buffer, memory).0, FILE_DIR), dirSizes);
            var b := UnpackAll(vs, dirSizes);
            && |b| >= 4 && |ParseDir(b)| == |Files(d.items)| && ParseDir(b)[i] == ListingOf(Files(d.items)[i])
            && var (d3, ws) := Ins(Select(d2, ParseDir(b)[i].key), fileSizes);
               UnpackAll(ws, fileSizes) == Padded(Contents(Files(d.items)[i]), Sum(fileSizes))
  {
    hide DevOk, BuildFileDir, Select, Ins, UnpackAll, Padded, ParseDir;
    BuildRegisters(d, buffer, memory);
    var d1 := BuildFileDir(d, buffer, memory).0;
    SelectAndRead(d1, |d.items|, dirSizes);
    var (d2, vs) := Ins(Select(d1, FILE_DIR), dirSizes);
    var b := UnpackAll(vs, dirSizes);
    ParsePadded(d, Sum(dirSizes));
    var k := FileIndex(d.items, i);
    assert d1.items[k] == d1.items[..|d.items|][k];
    SelectAndRead(d2, k, fileSizes);
  }

  lemma ParsePadded(d: Dev, n: nat)
    requires DevOk(d) && n >= |DirBytes(d.items)| >= 4
    ensures var b := Padded(DirBytes(d.items), n);
            && |ParseDir(b)| == |Files(d.items)|
            && forall k | 0 <= k < |Files(d.items)| :: ParseDir(b)[k] == ListingOf(Files(d.items)[k])
  {
    var dir := DirBytes(d.items);
    assert Padded(dir, n)[..|dir|] == dir;
    DirRoundTrip(d.items, Padded(dir, n));
  }
}
