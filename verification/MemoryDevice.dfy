// Memory under test: an array of 64-bit cells reached through an address decoder
// and subject to one fault.
module MemoryDevice {

  type Word = bv64

  // One bit of a word, named by its mask.
  predicate OneBit(m: Word) {
    m != 0 && m & (m - 1) == 0
  }

  predicate Bit(w: Word, m: Word) {
    w & m != 0
  }

  function SetBit(w: Word, m: Word, value: bool): Word {
    if value then w | m else w & !m
  }

  lemma SetBitBit(w: Word, m: Word, value: bool)
    requires m != 0
    ensures Bit(SetBit(w, m, value), m) == value
  {
  }

  lemma ComplementBit(w: Word, m: Word)
    requires OneBit(m)
    ensures Bit(!w, m) == !Bit(w, m)
  {
  }

  lemma ComplementDiffers(w: Word)
    ensures !w != w && !!w == w
  {
  }

  lemma InvertDiffers(w: Word, m: Word)
    requires m != 0
    ensures w ^ m != w
  {
    assert (w ^ m) ^ w == m;
  }

  datatype Effect = Force(value: bool) | Invert

  function Disturb(w: Word, m: Word, e: Effect): Word {
    match e
    case Force(v) => SetBit(w, m, v)
    case Invert => w ^ m
  }

  datatype Fault =
    | Healthy
    | StuckAt(cell: nat, bit: Word, value: bool)
    | Transition(cell: nat, bit: Word, rising: bool)  // the bit cannot make this transition
    | Coupling(aggressor: nat, abit: Word, rising: bool, victim: nat, vbit: Word, effect: Effect)

  // decode[i] is the cell that address i reaches; own[i] is the value of the pointer
  // to word i.
  datatype Device = Device(decode: seq<nat>, own: seq<Word>, size: nat, fault: Fault)

  ghost predicate WellFormed(d: Device) {
    && (forall i :: 0 <= i < |d.decode| ==> d.decode[i] < d.size)
    && |d.own| == |d.decode|
    && (forall i, j :: 0 <= i < j < |d.own| ==> d.own[i] != d.own[j])
    && match d.fault
       case Healthy => true
       case StuckAt(c, m, _) => c < d.size && OneBit(m)
       case Transition(c, m, _) => c < d.size && OneBit(m)
       case Coupling(a, am, _, v, vm, _) => a < d.size && v < d.size && a != v && OneBit(am) && OneBit(vm)
  }

  ghost predicate Direct(d: Device) {
    forall i :: 0 <= i < |d.decode| ==> d.decode[i] == i
  }

  ghost predicate Injective(d: Device) {
    forall i, j :: 0 <= i < j < |d.decode| ==> d.decode[i] != d.decode[j]
  }

  // Whether overwriting `before` with `after` makes the given bit rise (or fall).
  predicate Moves(before: Word, after: Word, m: Word, rising: bool) {
    Bit(before, m) != rising && Bit(after, m) == rising
  }

  function Load(d: Device, cells: seq<Word>, c: nat): Word
    requires c < |cells|
  {
    if d.fault.StuckAt? && d.fault.cell == c then SetBit(cells[c], d.fault.bit, d.fault.value) else cells[c]
  }

  function Store(d: Device, cells: seq<Word>, c: nat, w: Word): (cells': seq<Word>)
    requires c < |cells| && (d.fault.Coupling? ==> d.fault.victim < |cells|)
    ensures |cells'| == |cells|
  {
    match d.fault
    case Healthy => cells[c := w]
    case StuckAt(_, _, _) => cells[c := w]
    case Transition(x, m, rising) =>
      if c == x && Moves(cells[c], w, m, rising) then cells[c := SetBit(w, m, !rising)] else cells[c := w]
    case Coupling(a, am, rising, v, vm, e) =>
      var next := cells[c := w];
      if c == a && Moves(cells[c], w, am, rising) then next[v := Disturb(next[v], vm, e)] else next
  }

  class Memory {
    const device: Device
    var cells: seq<Word>

    constructor (device: Device, cells: seq<Word>)
      requires WellFormed(device) && |cells| == device.size
      ensures this.device == device && this.cells == cells && Valid()
    {
      this.device, this.cells := device, cells;
    }

    ghost predicate Valid()
      reads this
    {
      WellFormed(device) && |cells| == device.size
    }

    function Words(): nat {
      |device.decode|
    }

    method Read(i: nat) returns (w: Word)
      requires Valid() && i < Words()
      ensures w == Load(device, cells, device.decode[i])
    {
      w := Load(device, cells, device.decode[i]);
    }

    method Write(i: nat, w: Word)
      requires Valid() && i < Words()
      modifies this
      ensures Valid() && cells == Store(device, old(cells), device.decode[i], w)
    {
      cells := Store(device, cells, device.decode[i], w);
    }
  }
}
