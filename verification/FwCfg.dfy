/** The fw_cfg device of src/firmware/fw_cfg.c as a state machine: a registry of keyed items, a byte
    stream over the selected item, and the big-endian file directory. Bytes are numbers below 256.
*/
module FwCfg {

  type byte = x: int | 0 <= x < 256

  /** The operand sizes of an IN or OUT. */
  type Width = n: nat | n == 1 || n == 2 || n == 4 witness 1

  datatype Option<T> = None | Some(value: T)

  datatype Errno = OK | EINVAL | ENOSPC | EEXIST | ENOMEM

  const FILE_DIR: nat := 0x19
  const FILE_FIRST: nat := 0x8000
  const MAX_ITEMS: nat := 32
  const MAX_NAME_LEN: nat := 55
  const MAX_ITEM_SIZE: nat := 4096
  const NAME_FIELD: nat := 56
  const ENTRY_SIZE: nat := 64
  const KEY_MOD: nat := 0x1_0000
  const PORT_SEL: nat := 0x510
  const PORT_DATA: nat := 0x511

  datatype Item = Item(key: nat, name: seq<byte>, data: Option<seq<byte>>, size: nat, cursor: nat)

  /** `selected` is an index into `items`. */
  datatype Dev = Dev(items: seq<Item>, selected: Option<nat>, nextKey: nat)

  const EMPTY: Dev := Dev([], None, FILE_FIRST)

  // ---------------------------------------------------------------- registering

  /** The first slot from `i` on with this key, or the number of slots. */
  function SlotOf(items: seq<Item>, key: nat, i: nat): (k: nat)
    requires i <= |items|
    ensures i <= k <= |items|
    ensures k < |items| ==> items[k].key == key
    ensures forall j | i <= j < k :: items[j].key != key
    decreases |items| - i
  {
    if i == |items| || items[i].key == key then i else SlotOf(items, key, i + 1)
  }

  predicate HasKey(items: seq<Item>, key: nat) {
    SlotOf(items, key, 0) < |items|
  }

  /** relm_fw_cfg_register of `size` bytes; `memory` tells whether kmalloc succeeds. */
  function Register(d: Dev, key: nat, name: seq<byte>, data: Option<seq<byte>>, size: nat, memory: bool): (Dev, Errno) {
    if size > MAX_ITEM_SIZE then (d, EINVAL)
    else if |d.items| >= MAX_ITEMS then (d, ENOSPC)
    else if HasKey(d.items, key) then (d, EEXIST)
    else if size > 0 && data.Some? && !memory then (d, ENOMEM)
    else (d.(items := d.items + [Item(key, name, if size > 0 then data else None, size, 0)]), OK)
  }

  /** relm_fw_cfg_register_file: a key is used up even when the registration fails. */
  function RegisterFile(d: Dev, name: seq<byte>, data: Option<seq<byte>>, size: nat, memory: bool): (Dev, Errno) {
    if name == [] || |name| > MAX_NAME_LEN then (d, EINVAL)
    else Register(d.(nextKey := (d.nextKey + 1) % KEY_MOD), d.nextKey, name, data, size, memory)
  }

  // ---------------------------------------------------------------- the directory

  function Be32(x: nat): (b: seq<byte>)
    ensures |b| == 4
  {
    [x / 0x100_0000 % 256, x / 0x1_0000 % 256, x / 0x100 % 256, x % 256]
  }

  function Be16(x: nat): (b: seq<byte>)
    ensures |b| == 2
  {
    [x / 0x100 % 256, x % 256]
  }

  function Zeros(n: nat): (z: seq<byte>)
    ensures |z| == n
  {
    seq(n, _ => 0)
  }

  /** One struct fw_cfg_file. */
  function DirEntry(it: Item): (b: seq<byte>)
    ensures |it.name| <= NAME_FIELD ==> |b| == ENTRY_SIZE
  {
    var pad := if |it.name| <= NAME_FIELD then NAME_FIELD - |it.name| else 0;
    Be32(it.size) + Be16(it.key) + Be16(0) + it.name + Zeros(pad)
  }

  predicate IsFile(it: Item) {
    it.key >= FILE_FIRST
  }

  /** The named files, in registration order. */
  function Files(items: seq<Item>): (fs: seq<Item>)
    ensures |fs| <= |items|
  {
    if items == [] then []
    else if IsFile(items[0]) then [items[0]] + Files(items[1..])
    else Files(items[1..])
  }

  function Entries(fs: seq<Item>): seq<byte> {
    if fs == [] then [] else DirEntry(fs[0]) + Entries(fs[1..])
  }

  function DirBytes(items: seq<Item>): seq<byte> {
    Be32(|Files(items)|) + Entries(Files(items))
  }

  /** relm_fw_cfg_build_file_dir; a directory that is already registered stays as it is. `buffer` and `memory`
      tell whether the buffer and the registered copy can be allocated. */
  function BuildFileDir(d: Dev, buffer: bool, memory: bool): (Dev, Errno) {
    if !buffer then (d, ENOMEM)
    else
      var dir := DirBytes(d.items);
      var (d1, e) := Register(d, FILE_DIR, [], Some(dir), |dir|, memory);
      (d1, if e == EEXIST then OK else e)
  }

  // ---------------------------------------------------------------- reading

  function Select(d: Dev, key: nat): Dev {
    var k := SlotOf(d.items, key, 0);
    if k == |d.items| then d.(selected := None)
    else d.(selected := Some(k), items := d.items[k := d.items[k].(cursor := 0)])
  }

  predicate CanRead(d: Dev) {
    && d.selected.Some? && d.selected.value < |d.items|
    && var it := d.items[d.selected.value];
       it.data.Some? && it.cursor < it.size && it.cursor < |it.data.value|
  }

  /** relm_fw_cfg_read. */
  function Read(d: Dev): (Dev, byte) {
    if CanRead(d) then
      var k := d.selected.value;
      var it := d.items[k];
      (d.(items := d.items[k := it.(cursor := it.cursor + 1)]), it.data.value[it.cursor])
    else (d, 0)
  }

  /** The bytes of a data-port IN from byte `b` on, and the value they add up to. */
  function InFrom(d: Dev, size: nat, b: nat): (Dev, nat)
    decreases size - b
  {
    if b >= size then (d, 0)
    else
      var (d1, x) := Read(d);
      var (d2, rest) := InFrom(d1, size, b + 1);
      (d2, x + 256 * rest)
  }

  /** One IN of `size` bytes from the data port: little-endian. */
  function In(d: Dev, size: Width): (Dev, nat) {
    InFrom(d, size, 0)
  }

  /** A series of INs. */
  function Ins(d: Dev, sizes: seq<Width>): (Dev, seq<nat>)
    decreases |sizes|
  {
    if sizes == [] then (d, [])
    else
      var (d1, v) := In(d, sizes[0]);
      var (d2, vs) := Ins(d1, sizes[1..]);
      (d2, [v] + vs)
  }

  // ---------------------------------------------------------------- what a driver does with it

  /** The bytes an IN of `size` bytes delivered. */
  function Unpack(v: nat, size: nat): seq<byte>
    decreases size
  {
    if size == 0 then [] else [v % 256] + Unpack(v / 256, size - 1)
  }

  function UnpackAll(vs: seq<nat>, sizes: seq<nat>): seq<byte>
    decreases |sizes|
  {
    if sizes == [] || vs == [] then [] else Unpack(vs[0], sizes[0]) + UnpackAll(vs[1..], sizes[1..])
  }

  function Sum(sizes: seq<nat>): nat
    decreases |sizes|
  {
    if sizes == [] then 0 else sizes[0] + Sum(sizes[1..])
  }

  function FromBe(b: seq<byte>): nat
    decreases |b|
  {
    if b == [] then 0 else FromBe(b[..|b| - 1]) * 256 + b[|b| - 1]
  }

  /** The bytes before the first NUL. */
  function CString(b: seq<byte>): seq<byte> {
    if b == [] || b[0] == 0 then [] else [b[0]] + CString(b[1..])
  }

  datatype Listing = Listing(size: nat, key: nat, name: seq<byte>)

  function ParseEntry(b: seq<byte>): Listing
    requires |b| == ENTRY_SIZE
  {
    Listing(FromBe(b[0..4]), FromBe(b[4..6]), CString(b[8..64]))
  }

  /** Entries k.. of a directory whose entries start at byte 4. */
  function ParseFrom(b: seq<byte>, n: nat, k: nat): seq<Listing>
    decreases n - k
  {
    if k >= n || 4 + (k + 1) * ENTRY_SIZE > |b| then []
    else [ParseEntry(b[4 + k * ENTRY_SIZE..4 + (k + 1) * ENTRY_SIZE])] + ParseFrom(b, n, k + 1)
  }

  function ParseDir(b: seq<byte>): seq<Listing>
    requires |b| >= 4
  {
    ParseFrom(b, FromBe(b[0..4]), 0)
  }

  /** `data` followed by zeros, cut or filled to `n` bytes. */
  function Padded(data: seq<byte>, n: nat): (p: seq<byte>)
    ensures |p| == n
  {
    seq(n, i requires 0 <= i < n => if i < |data| then data[i] else 0)
  }

  function Contents(it: Item): seq<byte> {
    if it.data.None? then [] else it.data.value
  }
}
