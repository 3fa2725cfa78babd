/** The 128-wire vector operations: four 32-wire lanes, least significant wire first. */
module LaneOps {
  import opened Bits

  /** Lane `k` of a block. */
  function Lane(a: Block, k: nat): (r: seq<bool>)
    requires k < 4
    ensures |r| == 32
  {
    a[32 * k..32 * k + 32]
  }

  /** The lane number that two bits of `imm` name for output lane `k`. */
  function Select(imm: nat, k: nat): (n: nat)
    requires imm < 256 && k < 4
    ensures n < 4
  {
    if k == 0 then imm % 4 else if k == 1 then imm / 4 % 4 else if k == 2 then imm / 16 % 4 else imm / 64
  }

  /** Each output lane is the input lane named by two bits of `imm`. */
  function ShuffleEpi32(a: Block, imm: nat): (r: Block)
    requires imm < 256
  {
    seq(128, i requires 0 <= i < 128 => Lane(a, Select(imm, i / 32))[i % 32])
  }

  /** The number of wires a byte shift moves. */
  function ByteShift(imm: nat): (n: nat)
    ensures n <= 128
  {
    8 * if imm > 15 then 16 else imm
  }

  function SlliSi128(a: Block, imm: nat): (r: Block)
  {
    Zeros(ByteShift(imm)) + a[..128 - ByteShift(imm)]
  }

  function SrliSi128(a: Block, imm: nat): (r: Block)
  {
    a[ByteShift(imm)..] + Zeros(ByteShift(imm))
  }

  /** All four lanes shifted towards their high or their low wires, each within its own 32 wires. */
  function ShiftEpi32(left: bool, a: Block, imm: nat): (r: Block)
  {
    var dist := if imm > 31 then 32 else imm;
    seq(128, i requires 0 <= i < 128 =>
      if left then dist <= i % 32 && Lane(a, i / 32)[i % 32 - dist]
      else i % 32 + dist < 32 && Lane(a, i / 32)[i % 32 + dist])
  }

  /** Wire-by-wire and. */
  function And(a: Block, b: Block): (r: Block)
  {
    seq(128, i requires 0 <= i < 128 => a[i] && b[i])
  }

  /** Wire-by-wire and with the first operand inverted. */
  function AndNot(a: Block, b: Block): (r: Block)
  {
    seq(128, i requires 0 <= i < 128 => !a[i] && b[i])
  }

  method XorSi128(a: Block, b: Block) returns (r: Block)
    ensures r == Xor(a, b)
  {
    var out := new bool[128];
    for i := 0 to 128
      invariant forall j | 0 <= j < i :: out[j] == (a[j] != b[j])
    {
      out[i] := a[i] != b[i];
    }
    r := out[..];
  }

  method AndSi128(a: Block, b: Block) returns (r: Block)
    ensures r == And(a, b)
  {
    var out := new bool[128];
    for i := 0 to 128
      invariant forall j | 0 <= j < i :: out[j] == (a[j] && b[j])
    {
      out[i] := a[i] && b[i];
    }
    r := out[..];
  }

  method AndnotSi128(a: Block, b: Block) returns (r: Block)
    ensures r == AndNot(a, b)
  {
    var out := new bool[128];
    for i := 0 to 128
      invariant forall j | 0 <= j < i :: out[j] == (!a[j] && b[j])
    {
      out[i] := !a[i] && b[i];
    }
    r := out[..];
  }

  /** What a lane shift leaves on wire `i`. */
  lemma ShiftEpi32At(left: bool, a: Block, imm: nat, i: nat)
    requires imm < 32 && i < 128
    ensures left ==> ShiftEpi32(left, a, imm)[i] == (imm <= i % 32 && a[i - imm])
    ensures !left ==> ShiftEpi32(left, a, imm)[i] == (i % 32 + imm < 32 && a[i + imm])
  {
  }
}
