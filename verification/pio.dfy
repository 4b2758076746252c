/** The word-shaping part of pio_functions.c: how a transmit word is aligned
    before it enters the state machine's TX FIFO, how the pull threshold field
    of SHIFTCTRL is rewritten, and the ordered effects of one BDM data command.
    The PIO hardware itself (instruction memory, FIFOs, the .pio programs) is
    represented only by the effects written to it. */
module Pio {
  import opened Numeric

  /** Width of the PIO shift registers and FIFO entries, in bits. */
  const REG_WIDTH: nat := 32

  /** The build shifts data out most significant bit first. */
  const SHIFT_RIGHT: bool := false

  /** Bit position of PULL_THRESH in SHIFTCTRL (an RP2040 SDK constant). */
  const PULL_THRESH_LSB: bv32 := 25

  /** The five SHIFTCTRL bits holding PULL_THRESH. */
  const PULL_THRESH_MASK: bv32 := 0x3e00_0000

  /** put_tx_fifo's alignment. With right shifting disabled the `bit`
      payload bits are moved to the top of the word, since the state machine
      shifts out from bit 31 downwards; otherwise the word is pushed as it is.
      A shift by 32 (bit = 0) is undefined in C, hence the lower bound. */
  function Align(data: Word, bit: nat, shiftRight: bool): (r: Word)
    requires shiftRight || 1 <= bit <= REG_WIDTH
    ensures shiftRight ==> r == data
    ensures !shiftRight ==> r % Pow(2, REG_WIDTH - bit) == 0
    ensures !shiftRight ==> r / Pow(2, REG_WIDTH - bit) == data % Pow(2, bit)
  {
    if shiftRight then data
    else
      var shifted := (data * Pow(2, REG_WIDTH - bit)) % WordModulus;
      AlignRoundTrip(data, bit);
      shifted
  }

  /** Left alignment keeps exactly the low `bit` bits of the data, moved to the top. */
  lemma AlignRoundTrip(data: Word, bit: nat)
    requires 1 <= bit <= REG_WIDTH
    ensures (data * Pow(2, REG_WIDTH - bit)) % WordModulus
         == (data % Pow(2, bit)) * Pow(2, REG_WIDTH - bit)
    ensures ((data * Pow(2, REG_WIDTH - bit)) % WordModulus) % Pow(2, REG_WIDTH - bit) == 0
    ensures ((data * Pow(2, REG_WIDTH - bit)) % WordModulus) / Pow(2, REG_WIDTH - bit)
         == data % Pow(2, bit)
  {
    PowAdd(2, bit, REG_WIDTH - bit);
    PowWord();
    ShiftWithinModulus(data, Pow(2, bit), Pow(2, REG_WIDTH - bit), WordModulus);
  }

  /** Multiplying by `up` modulo low*up keeps the residue of `data` modulo `low`, moved up. */
  lemma ShiftWithinModulus(data: nat, low: nat, up: nat, modulus: nat)
    requires low > 0 && up > 0 && low * up == modulus
    ensures (data * up) % modulus == (data % low) * up
    ensures ((data * up) % modulus) % up == 0
    ensures ((data * up) % modulus) / up == data % low
  {
    var q, rem := data / low, data % low;
    assert data * up == q * modulus + rem * up by {
      assert data == q * low + rem;
      assert data * up == (q * low + rem) * up;
      assert (q * low) * up == q * (low * up);
    }
    MulMonotone(rem + 1, low, up);
    DivModUnique(data * up, modulus, q, rem * up);
    DivModUnique(rem * up, up, rem, 0);
  }

  /** put_tx_fifo: the TX FIFO receives the aligned word behind what it already holds. */
  function PutTxFifo(fifo: seq<Word>, data: Word, bit: nat, shiftRight: bool): (r: seq<Word>)
    requires shiftRight || 1 <= bit <= REG_WIDTH
    ensures |r| == |fifo| + 1 && r[..|fifo|] == fifo
    ensures r[|fifo|] == Align(data, bit, shiftRight)
    ensures shiftRight ==> r[|fifo|] == data
    ensures !shiftRight ==> r[|fifo|] / Pow(2, REG_WIDTH - bit) == data % Pow(2, bit)
    ensures !shiftRight ==> r[|fifo|] % Pow(2, REG_WIDTH - bit) == 0
  {
    fifo + [Align(data, bit, shiftRight)]
  }

  /** fill_tx_fifo: the first `length` data words are pushed in index order,
      each aligned as put_tx_fifo aligns it. */
  method FillTxFifo(fifo: seq<Word>, data: seq<Word>, length: nat, bit: nat, shiftRight: bool)
    returns (pushed: seq<Word>)
    requires length <= |data|
    requires shiftRight || 1 <= bit <= REG_WIDTH
    ensures |pushed| == |fifo| + length
    ensures pushed[..|fifo|] == fifo
    ensures forall i :: 0 <= i < length ==> pushed[|fifo| + i] == Align(data[i], bit, shiftRight)
  {
    pushed := fifo;
    var i := 0;
    while i < length
      invariant 0 <= i <= length
      invariant |pushed| == |fifo| + i
      invariant pushed[..|fifo|] == fifo
      invariant forall k :: 0 <= k < i ==> pushed[|fifo| + k] == Align(data[k], bit, shiftRight)
    {
      pushed := PutTxFifo(pushed, data[i], bit, shiftRight);
      i := i + 1;
    }
  }

  /** The value the PULL_THRESH field receives for a requested threshold:
      its low five bits (so 32 is stored as 0, which the hardware reads as 32). */
  function PullThresholdField(pullThreshold: Word): bv32
  {
    (pullThreshold as bv32) & 0x1f
  }

  /** pio_set_pull_threshold: rewrite PULL_THRESH, keep every other SHIFTCTRL bit. */
  function SetPullThreshold(shiftctrl: bv32, pullThreshold: Word): (r: bv32)
    ensures r & !PULL_THRESH_MASK == shiftctrl & !PULL_THRESH_MASK
    ensures (r & PULL_THRESH_MASK) >> PULL_THRESH_LSB == PullThresholdField(pullThreshold)
  {
    (shiftctrl & !PULL_THRESH_MASK) | (((pullThreshold as bv32) & 0x1f) << PULL_THRESH_LSB)
  }

  /** Writing the same threshold twice is the same as writing it once. */
  lemma SetPullThresholdIdempotent(shiftctrl: bv32, pullThreshold: Word)
    ensures SetPullThreshold(SetPullThreshold(shiftctrl, pullThreshold), pullThreshold)
         == SetPullThreshold(shiftctrl, pullThreshold)
  {
  }

  /** A full-word transfer stores a zero field; thresholds of 1..31 bits are stored as given. */
  lemma PullThresholdFieldValues(pullThreshold: Word)
    ensures pullThreshold == 32 ==> PullThresholdField(pullThreshold) == 0
    ensures pullThreshold < 32 ==> PullThresholdField(pullThreshold) == pullThreshold as bv32
  {
  }

  /** The state-machine instruction do_bdm_command patches in: `set x, value`
      (its binary encoding belongs to the SDK and is not modelled). */
  datatype Instr = SetX(value: nat)

  /** One write the firmware makes to the PIO block. */
  datatype PioEffect =
    | WriteShiftCtrl(shiftctrl: bv32)
    | WriteInstr(address: nat, instr: Instr)
    | Push(word: Word)

  /** do_bdm_command: set the number of bits to shift out, patch the
      receive-count instruction at offset+1, then push the aligned word. The
      push comes last because it starts the transfer. */
  function DoBdmCommand(shiftctrl: bv32, data: Word, txBit: nat, rxBit: nat, offset: nat)
    : (effects: seq<PioEffect>)
    requires 1 <= txBit <= REG_WIDTH
    ensures |effects| == 3
    ensures effects[0].WriteShiftCtrl?
         && effects[0].shiftctrl & !PULL_THRESH_MASK == shiftctrl & !PULL_THRESH_MASK
         && (effects[0].shiftctrl & PULL_THRESH_MASK) >> PULL_THRESH_LSB == PullThresholdField(txBit)
    ensures effects[1] == WriteInstr(offset + 1, SetX(rxBit))
    ensures effects[2].Push?
         && effects[2].word / Pow(2, REG_WIDTH - txBit) == data % Pow(2, txBit)
         && effects[2].word % Pow(2, REG_WIDTH - txBit) == 0
  {
    [ WriteShiftCtrl(SetPullThreshold(shiftctrl, txBit)),
      WriteInstr(offset + 1, SetX(rxBit)),
      Push(Align(data, txBit, SHIFT_RIGHT)) ]
  }
}
