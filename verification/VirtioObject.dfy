/** The virtio device as the structure a register access updates in place, with its loops over the queues. */
module VirtioObject {
  import opened Virtio

  class MmioDevice {
    const queues: array<Queue>
    const backend: Backend
    var deviceId: nat
    var status: bv8
    var isr: bv8
    var guestFeatures: nat
    var deviceSel: nat
    var driverSel: nat
    var queueSel: nat

    constructor (backend: Backend, deviceId: nat, queueCount: nat)
      ensures fresh(queues) && this.backend == backend
      ensures View() == Device(deviceId, 0, 0, 0, seq(queueCount, _ => Queue(0, 0, 0, 0, 0, false)), 0, 0, 0)
    {
      this.backend := backend;
      this.deviceId := deviceId;
      queues := new Queue[queueCount](_ => Queue(0, 0, 0, 0, 0, false));
      status, isr, guestFeatures, deviceSel, driverSel, queueSel := 0, 0, 0, 0, 0, 0;
    }

    function View(): Device
      reads this, queues
    {
      Device(deviceId, status, isr, guestFeatures, queues[..], deviceSel, driverSel, queueSel)
    }

    /** The queue loops of a STATUS write. */
    method ApplyStatus(value: Word)
      modifies queues
      ensures queues[..] == QueuesAfterStatus(old(queues[..]), value)
    {
      hide TakesDown, HasDriverOk;
      var i: nat := 0;
      if TakesDown(value) {
        while i < queues.Length
          invariant i <= queues.Length
          invariant forall j | 0 <= j < queues.Length ::
                queues[j] == if j < i then Cleared(old(queues[j])) else old(queues[j])
        {
          queues[i] := Cleared(queues[i]);
          i := i + 1;
        }
      } else if HasDriverOk(LowByte(value)) {
        while i < queues.Length
          invariant i <= queues.Length
          invariant forall j | 0 <= j < queues.Length ::
            queues[j] == if j < i then old(queues[j]).(ready := Complete(old(queues[j]))) else old(queues[j])
        {
          queues[i] := queues[i].(ready := Complete(queues[i]));
          i := i + 1;
        }
      }
    }

    /** A write to a register of the selected queue. */
    method WriteQueue(offset: nat, value: Word)
      requires queueSel < queues.Length
      modifies queues
      ensures var q := old(queues[queueSel]);
              queues[..] == old(queues[..])[queueSel :=
                if offset == QUEUE_NUM then (if value == backend.numMax(queueSel) then q.(size := value) else q)
                else if offset == QUEUE_READY then AskReady(old(View()), q, value)
                else SetAddress(q, offset, value)]
    {
      var q := queues[queueSel];
      if offset == QUEUE_NUM {
        if value == backend.numMax(queueSel) {
          queues[queueSel] := q.(size := value);
        }
      } else if offset == QUEUE_READY {
        if value == 0 {
          queues[queueSel] := q.(ready := false);
        } else if Complete(q) {
          queues[queueSel] := q.(ready := HasDriverOk(status));
        }
      } else {
        queues[queueSel] := SetAddress(q, offset, value);
      }
    }

    /** A write to a register that belongs to no queue. */
    method WriteDevice(offset: nat, value: Word) returns (irq: bool)
      requires offset in {DEVICE_FEATURES_SEL, DRIVER_FEATURES, DRIVER_FEATURES_SEL, QUEUE_SEL, QUEUE_NOTIFY,
        INTERRUPT_ACK}
      modifies this
      ensures (View(), irq) == WriteReg(backend, old(View()), offset, value)
    {
      hide QueuesAfterStatus, AskReady, SetAddress, LowByte;
      irq := false;
      if offset == DEVICE_FEATURES_SEL {
        deviceSel := value;
      } else if offset == DRIVER_FEATURES {
        if driverSel == 0 {
          guestFeatures := value;
        }
      } else if offset == DRIVER_FEATURES_SEL {
        driverSel := value;
      } else if offset == QUEUE_SEL {
        queueSel := value;
      } else if offset == QUEUE_NOTIFY {
        var processed := backend.notify(View(), value);
        if processed > 0 {
          isr := isr | 1;
          irq := true;
        }
      } else {
        isr := isr & !LowByte(value);
      }
    }

    method WriteStatus(value: Word)
      modifies this, queues
      ensures View() == WriteReg(backend, old(View()), STATUS, value).0
    {
      hide QueuesAfterStatus, LowByte;
      status := LowByte(value);
      ApplyStatus(value);
    }

    method WriteSelected(offset: nat, value: Word)
      requires offset !in {DEVICE_FEATURES_SEL, DRIVER_FEATURES, DRIVER_FEATURES_SEL, QUEUE_SEL, QUEUE_NOTIFY,
        INTERRUPT_ACK, STATUS}
      modifies queues
      ensures View() == WriteReg(backend, old(View()), offset, value).0
    {
      hide AskReady, SetAddress;
      if queueSel < queues.Length {
        WriteQueue(offset, value);
      }
    }

    /** relm_virtio_mmio_register_access_locked. */
    method RegisterAccess(offset: nat, write: bool, value: Word) returns (result: Word, irq: bool)
      modifies this, queues
      ensures Effect(View(), result, irq) == Step(backend, old(View()), Access(offset, write, value))
    {
      hide WriteReg;
      irq := false;
      result := value;
      if !write {
        result := ReadReg(backend, View(), offset, value);
      } else if offset < CONFIG {
        QuietWrite(backend, View(), offset, value);
        if offset in {DEVICE_FEATURES_SEL, DRIVER_FEATURES, DRIVER_FEATURES_SEL, QUEUE_SEL, QUEUE_NOTIFY,
          INTERRUPT_ACK} {
          irq := WriteDevice(offset, value);
        } else if offset == STATUS {
          WriteStatus(value);
        } else {
          WriteSelected(offset, value);
        }
      }
    }
  }

  /** Only notifications raise the interrupt. */
  lemma QuietWrite(b: Backend, d: Device, offset: nat, value: Word)
    ensures offset != QUEUE_NOTIFY ==> !WriteReg(b, d, offset, value).1
  {
  }
}
