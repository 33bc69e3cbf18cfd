/** From a list of files to what the firmware reads: registration, directory and contents in one theorem. */
module FwCfgFiles {
  import opened FwCfg
  import opened FwCfgProofs

  /** A file the device promises to take: a name of 1 to 54 bytes, data of the stated size, memory for it. */
  ghost predicate Registrable(r: Registration) {
    && r.File? && r.memory && r.data.Some? && |r.data.value| == r.size <= MAX_ITEM_SIZE
    && 1 <= |r.name| <= 54 && forall i | 0 <= i < |r.name| :: r.name[i] != 0
  }

  /** Item `it` holds file `r` under `key`. */
  ghost predicate Holds(it: Item, r: Registration, key: nat) {
    r.File? && r.data.Some? && it.key == key && it.name == r.name && it.size == r.size && Contents(it) == r.data.value
  }

  ghost predicate KeysBelow(d: Dev) {
    DevOk(d) && FILE_FIRST <= d.nextKey && forall i | 0 <= i < |d.items| :: d.items[i].key < d.nextKey
  }

  lemma OneFile(d: Dev, r: Registration)
    requires KeysBelow(d) && Registrable(r) && |d.items| < MAX_ITEMS && d.nextKey + 1 < KEY_MOD
    ensures var (d', e) := RegisterFile(d, r.name, r.data, r.size, r.memory);
            && e == OK && KeysBelow(d') && d'.nextKey == d.nextKey + 1
            && |d'.items| == |d.items| + 1 && d'.items[..|d.items|] == d.items
            && Holds(d'.items[|d.items|], r, d.nextKey)
  {
    RegisterFileKeeps(d, r.name, r.data, r.size, r.memory);
  }

  /** Files are stored one after the other under consecutive keys. */
  lemma {:induction false} FilesInOrder(d: Dev, rs: seq<Registration>)
    requires KeysBelow(d) && |d.items| + |rs| <= MAX_ITEMS && d.nextKey + |rs| < KEY_MOD
    requires forall i | 0 <= i < |rs| :: Registrable(rs[i])
    ensures var d' := RegisterAll(d, rs);
            && KeysBelow(d') && |d'.items| == |d.items| + |rs| && d'.items[..|d.items|] == d.items
            && forall i | 0 <= i < |rs| :: Holds(d'.items[|d.items| + i], rs[i], d.nextKey + i)
    decreases |rs|
  {
    if rs != [] {
      hide KeysBelow, Registrable, Holds, RegisterFile;
      var r := rs[0];
      assert Registrable(r);
      IsFileEntry(r);
      OneFile(d, r);
      var d1 := RegisterFile(d, r.name, r.data, r.size, r.memory).0;
      FilesInOrder(d1, rs[1..]);
      var d' := RegisterAll(d, rs);
      assert d'.items[..|d.items|] == d'.items[..|d1.items|][..|d.items|];
      forall i | 0 <= i < |rs|
        ensures Holds(d'.items[|d.items| + i], rs[i], d.nextKey + i)
      {
        if i == 0 {
          assert d'.items[|d.items|] == d'.items[..|d1.items|][|d.items|];
        } else {
          assert Holds(d'.items[|d1.items| + (i - 1)], rs[1..][i - 1], d1.nextKey + (i - 1));
        }
      }
    }
  }

  lemma IsFileEntry(r: Registration)
    requires Registrable(r)
    ensures r.File?
  {
  }

  lemma {:induction false} AllFiles(items: seq<Item>)
    requires forall i | 0 <= i < |items| :: IsFile(items[i])
    ensures Files(items) == items
  {
    if items != [] {
      AllFiles(items[1..]);
    }
  }

  lemma NoDirectoryYet(items: seq<Item>)
    requires forall i | 0 <= i < |items| :: IsFile(items[i])
    ensures !HasKey(items, FILE_DIR)
  {
  }

  /** A fresh device after registering files: exactly these files, in order, and the directory can be built. */
  lemma FreshFiles(rs: seq<Registration>)
    requires |rs| < MAX_ITEMS && forall k | 0 <= k < |rs| :: Registrable(rs[k])
    ensures var d := RegisterAll(EMPTY, rs);
            && DevOk(d) && |d.items| == |rs| && Files(d.items) == d.items && !HasKey(d.items, FILE_DIR)
            && BuildFileDir(d, true, true).1 == OK
            && forall k | 0 <= k < |rs| :: Holds(d.items[k], rs[k], FILE_FIRST + k)
  {
    hide Registrable, RegisterAll, BuildFileDir, DevOk, Files, HasKey, Holds, IsFile;
    EmptyOk();
    FilesInOrder(EMPTY, rs);
    var d := RegisterAll(EMPTY, rs);
    forall k | 0 <= k < |d.items|
      ensures Holds(d.items[k], rs[k], FILE_FIRST + k) && IsFile(d.items[k])
    {
      assert d.items[k] == d.items[|EMPTY.items| + k];
      HeldIsFile(d.items[k], rs[k], FILE_FIRST + k);
    }
    AllFiles(d.items);
    NoDirectoryYet(d.items);
    BuildSucceeds(d);
  }

  lemma HeldIsFile(it: Item, r: Registration, key: nat)
    requires Holds(it, r, key) && key >= FILE_FIRST
    ensures IsFile(it)
  {
  }

  lemma EmptyOk()
    ensures KeysBelow(EMPTY)
  {
  }

  lemma BuildSucceeds(d: Dev)
    requires DevOk(d) && |d.items| < MAX_ITEMS && !HasKey(d.items, FILE_DIR)
    ensures BuildFileDir(d, true, true).1 == OK
  {
    hide DirBytes;
    DirSize(d.items);
  }

  /** Register any files on a fresh device, build the directory, select it and read it through any mix of
      INs that covers it: entry i is file i, with its name, its size and key FILE_FIRST + i. Select that
      key and read through any mix of INs: the bytes are the registered bytes followed by zeros. */
  lemma FilesReachTheGuest(rs: seq<Registration>, dirSizes: seq<Width>, i: nat, fileSizes: seq<Width>)
    requires i < |rs| < MAX_ITEMS && forall k | 0 <= k < |rs| :: Registrable(rs[k])
    requires Sum(dirSizes) >= |DirBytes(RegisterAll(EMPTY, rs).items)|
    ensures rs[i].File? && rs[i].data.Some? && BuildFileDir(RegisterAll(EMPTY, rs), true, true).1 == OK
    ensures var (d2, vs) := Ins(Select(BuildFileDir(RegisterAll(EMPTY, rs), true, true).0, FILE_DIR), dirSizes);
            var b := UnpackAll(vs, dirSizes);
            && |b| >= 4 && |ParseDir(b)| == |rs| && ParseDir(b)[i] == Listing(rs[i].size, FILE_FIRST + i, rs[i].name)
            && var (d3, ws) := Ins(Select(d2, FILE_FIRST + i), fileSizes);
               UnpackAll(ws, fileSizes) == Padded(rs[i].data.value, Sum(fileSizes))
  {
    hide Registrable, Select, Ins, UnpackAll, Padded, ParseDir, DirBytes, RegisterAll, DevOk, BuildFileDir, HasKey,
      Files;
    FreshFiles(rs);
    var d := RegisterAll(EMPTY, rs);
    assert Holds(d.items[i], rs[i], FILE_FIRST + i);
    EndToEnd(d, true, true, dirSizes, i, fileSizes);
  }
}
