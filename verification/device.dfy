/**
 * The device of day16.rb: four registers, the instruction format and the
 * sixteen opcode procs of `INSTRUCTIONS`.
 */
module Device {

  /** `Instruction`: an opcode number and three operands, all parsed from digits. */
  datatype Instruction = Instruction(opcode: nat, i1: nat, i2: nat, output: nat)

  /** The names of `INSTRUCTIONS`. */
  datatype Op =
    | Addr | Addi | Mulr | Muli | Banr | Bani | Borr | Bori
    | Setr | Seti | Gtir | Gtri | Gtrr | Eqir | Eqri | Eqrr

  /** `INSTRUCTIONS.keys`, in the order of the table. */
  const Ops: seq<Op> :=
    [Addr, Addi, Mulr, Muli, Banr, Bani, Borr, Bori, Setr, Seti, Gtir, Gtri, Gtrr, Eqir, Eqri, Eqrr]

  /** The register file: a Ruby array of four non-negative integers. */
  type Registers = seq<nat>

  lemma OpsListsEveryOpOnce()
    ensures |Ops| == 16
    ensures forall op: Op :: op in Ops
    ensures forall i, j | 0 <= i < j < |Ops| :: Ops[i] != Ops[j]
  {
    forall op: Op ensures op in Ops {
      match op
      case Addr => assert Ops[0] == op;
      case Addi => assert Ops[1] == op;
      case Mulr => assert Ops[2] == op;
      case Muli => assert Ops[3] == op;
      case Banr => assert Ops[4] == op;
      case Bani => assert Ops[5] == op;
      case Borr => assert Ops[6] == op;
      case Bori => assert Ops[7] == op;
      case Setr => assert Ops[8] == op;
      case Seti => assert Ops[9] == op;
      case Gtir => assert Ops[10] == op;
      case Gtri => assert Ops[11] == op;
      case Gtrr => assert Ops[12] == op;
      case Eqir => assert Ops[13] == op;
      case Eqri => assert Ops[14] == op;
      case Eqrr => assert Ops[15] == op;
    }
  }

  // ---------------------------------------------------------------------
  // Integer `&` and `|`

  /** Ruby's `&` on non-negative integers, one bit at a time from the lowest. */
  function BitAnd(a: nat, b: nat): (r: nat)
    ensures r <= a && r <= b
    decreases a
  {
    if a == 0 || b == 0 then 0
    else 2 * BitAnd(a / 2, b / 2) + (if a % 2 == 1 && b % 2 == 1 then 1 else 0)
  }

  /** Ruby's `|` on non-negative integers, one bit at a time from the lowest. */
  function BitOr(a: nat, b: nat): (r: nat)
    ensures a <= r && b <= r && r <= a + b
    decreases a + b
  {
    if a == 0 then b
    else if b == 0 then a
    else 2 * BitOr(a / 2, b / 2) + (if a % 2 == 1 || b % 2 == 1 then 1 else 0)
  }

  /** `2` to the power `k`. */
  function Pow2(k: nat): (r: nat)
    ensures r >= 1
  {
    if k == 0 then 1 else 2 * Pow2(k - 1)
  }

  /** Bit `k` of `x`, counting from the lowest: Ruby's `x[k] == 1`. */
  predicate Bit(x: nat, k: nat) {
    (x / Pow2(k)) % 2 == 1
  }

  /** A quotient is determined by any decomposition with a remainder below the divisor. */
  lemma DivUnique(x: nat, d: nat, q: nat, r: nat)
    requires r < d && x == d * q + r
    ensures x / d == q
  {
    QuotientsAgree(x, d, q, r, x / d, x % d);
    QuotientsAgree(x, d, x / d, x % d, q, r);
  }

  /** Of two decompositions of `x` by `d` with remainders below `d`, neither quotient is the larger. */
  lemma QuotientsAgree(x: nat, d: nat, q: nat, r: nat, q': nat, r': nat)
    requires r < d && x == d * q + r && r' < d && x == d * q' + r'
    ensures q <= q'
  {
    if q' < q {
      MulLe(d, q' + 1, q);
    }
  }

  /** Multiplying by `d` keeps `<=`. */
  lemma MulLe(d: nat, m: nat, n: nat)
    requires m <= n
    ensures d * m <= d * n
  {
  }

  /** Dividing by `2 * d` is halving, then dividing by `d`. */
  lemma DivTwice(x: nat, d: nat)
    requires d >= 1
    ensures x / (2 * d) == (x / 2) / d
  {
    var h := x / 2;
    var q, r := h / d, h % d;
    assert h == d * q + r;
    assert x == 2 * h + x % 2;
    assert x == (2 * d) * q + (2 * r + x % 2);
    DivUnique(x, 2 * d, q, 2 * r + x % 2);
  }

  /** Bit `k + 1` of `x` is bit `k` of `x / 2`. */
  lemma BitOfHalf(x: nat, k: nat)
    ensures Bit(x, k + 1) == Bit(x / 2, k)
  {
    DivTwice(x, Pow2(k));
  }

  /** Halving `2 * q + b`, for a bit `b`, gives `q` back and leaves `b`. */
  lemma Halves(q: nat, b: nat)
    requires b < 2
    ensures (2 * q + b) / 2 == q && (2 * q + b) % 2 == b
  {
  }

  /** Bit 0 is the remainder modulo 2. */
  lemma LowBit(x: nat)
    ensures Bit(x, 0) <==> x % 2 == 1
  {
  }

  /** Bit `k` of `a & b` is set exactly when it is set in both `a` and `b`. */
  lemma {:induction false} BitOfAnd(a: nat, b: nat, k: nat)
    ensures Bit(BitAnd(a, b), k) <==> Bit(a, k) && Bit(b, k)
    decreases k
  {
    if a == 0 || b == 0 {
      ZeroHasNoBits(k);
    } else {
      var low := if a % 2 == 1 && b % 2 == 1 then 1 else 0;
      Halves(BitAnd(a / 2, b / 2), low);
      if k == 0 {
        LowBit(a);
        LowBit(b);
        LowBit(BitAnd(a, b));
      } else {
        BitOfAnd(a / 2, b / 2, k - 1);
        BitOfHalf(a, k - 1);
        BitOfHalf(b, k - 1);
        BitOfHalf(BitAnd(a, b), k - 1);
      }
    }
  }

  /** Bit `k` of `a | b` is set exactly when it is set in `a` or in `b`. */
  lemma {:induction false} BitOfOr(a: nat, b: nat, k: nat)
    ensures Bit(BitOr(a, b), k) <==> Bit(a, k) || Bit(b, k)
    decreases k
  {
    if a == 0 || b == 0 {
      ZeroHasNoBits(k);
    } else {
      var low := if a % 2 == 1 || b % 2 == 1 then 1 else 0;
      Halves(BitOr(a / 2, b / 2), low);
      if k == 0 {
        LowBit(a);
        LowBit(b);
        LowBit(BitOr(a, b));
      } else {
        BitOfOr(a / 2, b / 2, k - 1);
        BitOfHalf(a, k - 1);
        BitOfHalf(b, k - 1);
        BitOfHalf(BitOr(a, b), k - 1);
      }
    }
  }

  /** No bit of `0` is set. */
  lemma ZeroHasNoBits(k: nat)
    ensures !Bit(0, k)
  {
  }

  /** `a & b` and `a | b` together hold every bit of `a` and of `b`: they add up to `a + b`. */
  lemma {:induction false} AndPlusOr(a: nat, b: nat)
    ensures BitAnd(a, b) + BitOr(a, b) == a + b
    decreases a
  {
    if a != 0 && b != 0 {
      AndPlusOr(a / 2, b / 2);
    }
  }

  /** `&` and `|` do not depend on the order of their operands. */
  lemma {:induction false} AndOrCommute(a: nat, b: nat)
    ensures BitAnd(a, b) == BitAnd(b, a)
    ensures BitOr(a, b) == BitOr(b, a)
    decreases a
  {
    if a != 0 && b != 0 {
      AndOrCommute(a / 2, b / 2);
    }
  }

  /** `a & a` and `a | a` are `a`. */
  lemma {:induction false} AndOrIdempotent(a: nat)
    ensures BitAnd(a, a) == a && BitOr(a, a) == a
    decreases a
  {
    if a != 0 {
      AndOrIdempotent(a / 2);
    }
  }

  // ---------------------------------------------------------------------
  // The sixteen procs

  /** The operands `op` reads as register numbers are registers of the file. */
  predicate Readable(op: Op, ins: Instruction) {
    match op
    case Addr | Mulr | Banr | Borr | Gtrr | Eqrr => ins.i1 < 4 && ins.i2 < 4
    case Addi | Muli | Bani | Bori | Setr | Gtri | Eqri => ins.i1 < 4
    case Gtir | Eqir => ins.i2 < 4
    case Seti => true
  }

  /** The value the proc of `op` assigns to `regs[ins.output]`. */
  function Value(op: Op, r: Registers, ins: Instruction): nat
    requires |r| == 4 && Readable(op, ins)
  {
    match op
    case Addr => r[ins.i1] + r[ins.i2]
    case Addi => r[ins.i1] + ins.i2
    case Mulr => r[ins.i1] * r[ins.i2]
    case Muli => r[ins.i1] * ins.i2
    case Banr => BitAnd(r[ins.i1], r[ins.i2])
    case Bani => BitAnd(r[ins.i1], ins.i2)
    case Borr => BitOr(r[ins.i1], r[ins.i2])
    case Bori => BitOr(r[ins.i1], ins.i2)
    case Setr => r[ins.i1]
    case Seti => ins.i1
    case Gtir => if ins.i1 > r[ins.i2] then 1 else 0
    case Gtri => if r[ins.i1] > ins.i2 then 1 else 0
    case Gtrr => if r[ins.i1] > r[ins.i2] then 1 else 0
    case Eqir => if ins.i1 == r[ins.i2] then 1 else 0
    case Eqri => if r[ins.i1] == ins.i2 then 1 else 0
    case Eqrr => if r[ins.i1] == r[ins.i2] then 1 else 0
  }

  /** What the proc of `op` turns the register file `r` into. */
  function Apply(op: Op, r: Registers, ins: Instruction): (r': Registers)
    requires |r| == 4 && Readable(op, ins) && ins.output < 4
  {
    r[ins.output := Value(op, r, ins)]
  }

  /** Every proc assigns `regs[output]` and leaves the other three registers as they were. */
  lemma ApplyWritesOnlyOutput(op: Op, r: Registers, ins: Instruction)
    requires |r| == 4 && Readable(op, ins) && ins.output < 4
    ensures |Apply(op, r, ins)| == 4
    ensures Apply(op, r, ins)[ins.output] == Value(op, r, ins)
    ensures forall j | 0 <= j < 4 && j != ins.output :: Apply(op, r, ins)[j] == r[j]
  {
  }

  // ---------------------------------------------------------------------
  // The names decoded: an operation and what each letter selects

  /** The operation a name stands for, before its `r`/`i` suffix. */
  datatype Kind = Add | Mul | And | Or | Set | Gt | Eq

  /** What an operand is: a register number, a literal, or not read at all. */
  datatype Mode = Register | Literal | Unused

  /** The name read as an operation and a mode per operand (`gtir`: greater-than, literal, register). */
  function Decode(op: Op): (Kind, Mode, Mode) {
    match op
    case Addr => (Add, Register, Register)
    case Addi => (Add, Register, Literal)
    case Mulr => (Mul, Register, Register)
    case Muli => (Mul, Register, Literal)
    case Banr => (And, Register, Register)
    case Bani => (And, Register, Literal)
    case Borr => (Or, Register, Register)
    case Bori => (Or, Register, Literal)
    case Setr => (Set, Register, Unused)
    case Seti => (Set, Literal, Unused)
    case Gtir => (Gt, Literal, Register)
    case Gtri => (Gt, Register, Literal)
    case Gtrr => (Gt, Register, Register)
    case Eqir => (Eq, Literal, Register)
    case Eqri => (Eq, Register, Literal)
    case Eqrr => (Eq, Register, Register)
  }

  /** An operand's value: the register it names, the literal itself, or nothing (0). */
  function Operand(m: Mode, r: Registers, x: nat): nat
    requires m == Register ==> x < |r|
  {
    match m
    case Register => r[x]
    case Literal => x
    case Unused => 0
  }

  /** The operation on two operand values; comparisons give 1 for true and 0 for false. */
  function Combine(k: Kind, a: nat, b: nat): nat {
    match k
    case Add => a + b
    case Mul => a * b
    case And => BitAnd(a, b)
    case Or => BitOr(a, b)
    case Set => a
    case Gt => if a > b then 1 else 0
    case Eq => if a == b then 1 else 0
  }

  /**
   * Each proc is its name read letter by letter: the operation applied to
   * `r[i1]` or `i1`, and `r[i2]` or `i2`, as the letters say; `setr` and
   * `seti` do not look at `i2`.
   */
  lemma ValueIsDecoded(op: Op, r: Registers, ins: Instruction)
    requires |r| == 4
    ensures Readable(op, ins) <==>
              (Decode(op).1 == Register ==> ins.i1 < 4) && (Decode(op).2 == Register ==> ins.i2 < 4)
    ensures Readable(op, ins) ==>
              Value(op, r, ins) == Combine(Decode(op).0, Operand(Decode(op).1, r, ins.i1), Operand(Decode(op).2, r, ins.i2))
  {
  }

  /** The comparison procs write 0 or 1, and 1 exactly when the comparison holds. */
  lemma ComparisonsWriteABit(op: Op, r: Registers, ins: Instruction)
    requires |r| == 4 && Readable(op, ins) && Decode(op).0 in {Gt, Eq}
    ensures Value(op, r, ins) == 0 || Value(op, r, ins) == 1
    ensures var (k, m1, m2) := Decode(op);
            var a, b := Operand(m1, r, ins.i1), Operand(m2, r, ins.i2);
            Value(op, r, ins) == 1 <==> (if k == Gt then a > b else a == b)
  {
    ValueIsDecoded(op, r, ins);
  }

  /** `setr` and `seti` give the same result whatever `i2` is. */
  lemma SetIgnoresSecondOperand(op: Op, r: Registers, ins: Instruction, other: nat)
    requires |r| == 4 && Readable(op, ins) && (op == Setr || op == Seti)
    ensures Readable(op, ins.(i2 := other))
    ensures Value(op, r, ins.(i2 := other)) == Value(op, r, ins)
  {
  }

  /**
   * A register operand holding the literal's value gives the same result
   * as the literal: `addi a b c` acts as `addr a j c` whenever `r[j] == b`,
   * and likewise for every `i` name and its `r` counterpart.
   */
  lemma LiteralActsAsRegister(op: Op, r: Registers, ins: Instruction, j: nat)
    requires |r| == 4 && Readable(op, ins) && j < 4
    requires Decode(op).2 == Literal && r[j] == ins.i2
    ensures var twin := if op == Addi then Addr else if op == Muli then Mulr else if op == Bani then Banr
                        else if op == Bori then Borr else if op == Gtri then Gtrr else Eqrr;
            Readable(twin, ins.(i2 := j)) && Value(twin, r, ins.(i2 := j)) == Value(op, r, ins)
  {
  }

  /** `regs[instruction.output] = …`: the proc of `op` run on the register array in place. */
  method Execute(op: Op, regs: array<nat>, ins: Instruction)
    requires regs.Length == 4 && Readable(op, ins) && ins.output < 4
    modifies regs
    ensures regs[..] == Apply(op, old(regs[..]), ins)
  {
    var v: nat;
    match op {
      case Addr => v := regs[ins.i1] + regs[ins.i2];
      case Addi => v := regs[ins.i1] + ins.i2;
      case Mulr => v := regs[ins.i1] * regs[ins.i2];
      case Muli => v := regs[ins.i1] * ins.i2;
      case Banr => v := BitAnd(regs[ins.i1], regs[ins.i2]);
      case Bani => v := BitAnd(regs[ins.i1], ins.i2);
      case Borr => v := BitOr(regs[ins.i1], regs[ins.i2]);
      case Bori => v := BitOr(regs[ins.i1], ins.i2);
      case Setr => v := regs[ins.i1];
      case Seti => v := ins.i1;
      case Gtir => v := if ins.i1 > regs[ins.i2] then 1 else 0;
      case Gtri => v := if regs[ins.i1] > ins.i2 then 1 else 0;
      case Gtrr => v := if regs[ins.i1] > regs[ins.i2] then 1 else 0;
      case Eqir => v := if ins.i1 == regs[ins.i2] then 1 else 0;
      case Eqri => v := if regs[ins.i1] == ins.i2 then 1 else 0;
      case Eqrr => v := if regs[ins.i1] == regs[ins.i2] then 1 else 0;
    }
    regs[ins.output] := v;
  }
}
