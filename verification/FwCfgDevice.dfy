/** struct fw_cfg_device and the functions that update it in place. */
module FwCfgDevice {
  import opened FwCfg
  import F = FwCfg
  import FwCfgProofs

  class Device {
    var items: seq<Item>
    var selected: Option<nat>
    var nextKey: nat

    function State(): Dev
      reads this
    {
      Dev(items, selected, nextKey)
    }

    /** relm_fw_cfg_init. */
    constructor ()
      ensures State() == EMPTY
    {
      items, selected, nextKey := [], None, FILE_FIRST;
    }

    method Locate(key: nat) returns (k: nat)
      ensures k == SlotOf(items, key, 0)
    {
      k := 0;
      while k < |items| && items[k].key != key
        invariant k <= |items| && SlotOf(items, key, k) == SlotOf(items, key, 0)
      {
        k := k + 1;
      }
    }

    method Register(key: nat, name: seq<byte>, data: Option<seq<byte>>, size: nat, memory: bool) returns (ret: Errno)
      modifies this`items
      ensures (State(), ret) == F.Register(old(State()), key, name, data, size, memory)
    {
      if size > MAX_ITEM_SIZE {
        return EINVAL;
      }
      if |items| >= MAX_ITEMS {
        return ENOSPC;
      }
      var k := Locate(key);
      if k < |items| {
        return EEXIST;
      }
      if size > 0 && data.Some? && !memory {
        return ENOMEM;
      }
      items := items + [Item(key, name, if size > 0 then data else None, size, 0)];
      return OK;
    }

    method RegisterFile(name: seq<byte>, data: Option<seq<byte>>, size: nat, memory: bool)
        returns (ret: Errno, key: nat)
      modifies this`items, this`nextKey
      ensures (State(), ret) == F.RegisterFile(old(State()), name, data, size, memory)
      ensures ret == OK ==> key == old(nextKey) && |items| > 0 && items[|items| - 1].key == key
    {
      key := nextKey;
      if name == [] || |name| > MAX_NAME_LEN {
        return EINVAL, key;
      }
      nextKey := (nextKey + 1) % KEY_MOD;
      ret := Register(key, name, data, size, memory);
    }

    /** The counting loop and the filling loop of relm_fw_cfg_build_file_dir. */
    method DirectoryBytes() returns (dir: seq<byte>)
      ensures dir == DirBytes(items)
    {
      var count, i := 0, 0;
      while i < |items|
        invariant 0 <= i <= |items| && count + |Files(items[i..])| == |Files(items)|
      {
        if IsFile(items[i]) {
          count := count + 1;
        }
        assert items[i..][1..] == items[i + 1..];
        i := i + 1;
      }
      var entries: seq<byte> := [];
      i := 0;
      assert items[0..] == items;
      while i < |items|
        invariant 0 <= i <= |items| && entries + Entries(Files(items[i..])) == Entries(Files(items))
      {
        assert items[i..][1..] == items[i + 1..];
        FilesStep(items[i..]);
        if IsFile(items[i]) {
          assert entries + (DirEntry(items[i]) + Entries(Files(items[i + 1..])))
              == entries + DirEntry(items[i]) + Entries(Files(items[i + 1..]));
          entries := entries + DirEntry(items[i]);
        }
        i := i + 1;
      }
      dir := Be32(count) + entries;
    }

    method BuildFileDir(buffer: bool, memory: bool) returns (ret: Errno)
      modifies this`items
      ensures (State(), ret) == F.BuildFileDir(old(State()), buffer, memory)
    {
      if !buffer {
        return ENOMEM;
      }
      var dir := DirectoryBytes();
      ret := Register(FILE_DIR, [], Some(dir), |dir|, memory);
      if ret == EEXIST {
        ret := OK;
      }
    }

    method Select(key: nat)
      modifies this`items, this`selected
      ensures State() == F.Select(old(State()), key)
    {
      selected := None;
      var k := Locate(key);
      if k < |items| {
        selected := Some(k);
        items := items[k := items[k].(cursor := 0)];
      }
    }

    method Read() returns (x: byte)
      modifies this`items
      ensures (State(), x) == F.Read(old(State()))
    {
      x := 0;
      if CanRead(State()) {
        var k := selected.value;
        x := items[k].data.value[items[k].cursor];
        items := items[k := items[k].(cursor := items[k].cursor + 1)];
      }
    }

    /** The byte loop of a data-port IN: byte b of the result is the b-th byte read. */
    method DataIn(size: Width) returns (value: nat)
      modifies this`items
      ensures (State(), value) == In(old(State()), size)
    {
      hide F.Read, InFrom;
      value := 0;
      var b: nat, weight: nat := 0, 1;
      ghost var d0 := State();
      ghost var total := InFrom(d0, size, 0).1;
      while b < size
        invariant b <= size
        invariant InFrom(State(), size, b).0 == InFrom(d0, size, 0).0
        invariant value + weight * InFrom(State(), size, b).1 == total
      {
        InStep(State(), size, b);
        var x := Read();
        Accumulate(value, weight, x, InFrom(State(), size, b + 1).1, total);
        value, weight := value + weight * x, weight * 256;
        b := b + 1;
      }
      InStep(State(), size, b);
    }

    /** relm_fw_cfg_handle_io. `value` is what the guest writes; the result is what it reads. */
    method HandleIo(port: nat, isWrite: bool, size: Width, value: nat) returns (result: nat)
      modifies this`items, this`selected
      ensures port == PORT_SEL && isWrite ==> State() == F.Select(old(State()), value % KEY_MOD)
      ensures port == PORT_DATA && !isWrite ==> (State(), result) == In(old(State()), size) && result < 0x1_0000_0000
      ensures !(port == PORT_SEL && isWrite) && !(port == PORT_DATA && !isWrite) ==> State() == old(State())
      ensures port == PORT_SEL && !isWrite ==> result == 0
      ensures isWrite || (port != PORT_SEL && port != PORT_DATA) ==> result == value
    {
      result := value;
      if port == PORT_SEL {
        if isWrite {
          Select(value % KEY_MOD);
        } else {
          result := 0;
        }
      } else if port == PORT_DATA && !isWrite {
        FwCfgProofs.InFits(State(), size);
        result := DataIn(size);
      }
    }
  }

  lemma FilesStep(items: seq<Item>)
    requires items != []
    ensures Entries(Files(items)) == (if IsFile(items[0]) then DirEntry(items[0]) else []) + Entries(Files(items[1..]))
  {
    if IsFile(items[0]) {
      assert Files(items)[1..] == Files(items[1..]);
    }
  }

  lemma InStep(d: Dev, size: nat, b: nat)
    ensures b >= size ==> InFrom(d, size, b) == (d, 0)
    ensures b < size ==> var (d1, x) := F.Read(d);
                         && InFrom(d, size, b).0 == InFrom(d1, size, b + 1).0
                         && InFrom(d, size, b).1 == x + 256 * InFrom(d1, size, b + 1).1
  {
  }

  lemma Accumulate(value: nat, weight: nat, x: nat, rest: nat, total: nat)
    requires value + weight * (x + 256 * rest) == total
    ensures value + weight * x + weight * 256 * rest == total
  {
    assert weight * (x + 256 * rest) == weight * x + weight * (256 * rest);
    assert weight * (256 * rest) == weight * 256 * rest;
  }
}
