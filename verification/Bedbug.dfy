/** Operand coding of a PowerPC assembler and disassembler: how the operands of an instruction go into
    its word, and how they are taken out again. The table of operands, the opcode, and the readers of
    numbers and register names are parameters. A `long` has 32 bits, and the host is big-endian, so
    that htonl changes nothing. */
module Bedbug {
  import opened Options
  import Arithmetic

  type i32 = x: int | -0x8000_0000 <= x < 0x8000_0000
  type u32 = x: int | 0 <= x < 0x1_0000_0000

  // ----- bits -----

  function Pow2(n: nat): (p: nat)
    ensures p >= 1
  {
    if n == 0 then 1 else 2 * Pow2(n - 1)
  }

  lemma {:induction false} PowOfSum(m: nat, n: nat)
    ensures Pow2(m + n) == Pow2(m) * Pow2(n)
  {
    if n > 0 {
      PowOfSum(m, n - 1);
      var p, q := Pow2(m), Pow2(n - 1);
      assert 2 * (p * q) == p * (2 * q);
    }
  }

  lemma WordPowers()
    ensures Pow2(32) == 0x1_0000_0000 && Pow2(31) == 0x8000_0000 && Pow2(29) == 0x2000_0000
  {
    assert Pow2(4) == 2 * Pow2(3) == 4 * Pow2(2) == 8 * Pow2(1) == 16;
    PowOfSum(4, 4);
    PowOfSum(8, 8);
    PowOfSum(16, 16);
    assert Pow2(32) == 2 * Pow2(31) == 4 * Pow2(30) == 8 * Pow2(29);
  }

  /** x & (1 << n) - 1, also for a negative x in two's complement. */
  function Low(x: int, n: nat): nat
    decreases n
  {
    if n == 0 then 0 else x % 2 + 2 * Low(x / 2, n - 1)
  }

  /** x >> s, arithmetic. */
  function Shr(x: int, s: nat): int
    decreases s
  {
    if s == 0 then x else Shr(x / 2, s - 1)
  }

  /** x << s, where nothing is shifted out. */
  function Shl(x: nat, s: nat): nat {
    if s == 0 then x else 2 * Shl(x, s - 1)
  }

  /** a | b. */
  function Or(a: nat, b: nat): nat
    decreases a + b
  {
    if a == 0 && b == 0 then 0
    else (if a % 2 == 1 || b % 2 == 1 then 1 else 0) + 2 * Or(a / 2, b / 2)
  }

  lemma OrByHalves(a: nat, b: nat)
    ensures Or(a, b) / 2 == Or(a / 2, b / 2)
    ensures Or(a, b) % 2 == if a % 2 == 1 || b % 2 == 1 then 1 else 0
  {
  }

  lemma {:induction false} ShrOfOr(a: nat, b: nat, s: nat)
    ensures Shr(a, s) >= 0 && Shr(b, s) >= 0 && Shr(Or(a, b), s) == Or(Shr(a, s), Shr(b, s))
  {
    if s > 0 {
      OrByHalves(a, b);
      ShrOfOr(a / 2, b / 2, s - 1);
    }
  }

  lemma {:induction false} LowOfOr(a: nat, b: nat, n: nat)
    requires Low(a, n) == 0 || Low(b, n) == 0
    ensures Low(Or(a, b), n) == Low(a, n) + Low(b, n)
  {
    if n > 0 {
      OrByHalves(a, b);
      LowOfOr(a / 2, b / 2, n - 1);
    }
  }

  lemma {:induction false} LowIsMod(x: int, n: nat)
    ensures Low(x, n) == x % Pow2(n)
    decreases n
  {
    if n > 0 {
      LowIsMod(x / 2, n - 1);
      HalfMod(x, Pow2(n - 1));
    }
  }

  lemma HalfMod(x: int, p: nat)
    requires p >= 1
    ensures x % (2 * p) == x % 2 + 2 * (x / 2 % p)
  {
    var q, r := x / 2 / p, x / 2 % p;
    assert x / 2 == q * p + r;
    assert q * (2 * p) == 2 * (q * p);
    Arithmetic.ModUnique(x, 2 * p, q, 2 * r + x % 2);
  }

  lemma LowBound(x: int, n: nat)
    ensures Low(x, n) < Pow2(n)
  {
    LowIsMod(x, n);
  }

  lemma {:induction false} LowOfLow(x: int, n: nat)
    ensures Low(Low(x, n), n) == Low(x, n)
    decreases n
  {
    if n > 0 {
      LowOfLow(x / 2, n - 1);
    }
  }

  lemma {:induction false} ShrOfShl(x: nat, s: nat)
    ensures Shr(Shl(x, s), s) == x
  {
    if s > 0 {
      ShrOfShl(x, s - 1);
    }
  }

  /** A field above the one that is taken out leaves nothing in it. */
  lemma {:induction false} FieldAbove(y: nat, s1: nat, s2: nat, n2: nat)
    requires s2 + n2 <= s1
    ensures Low(Shr(Shl(y, s1), s2), n2) == 0
  {
    if s2 > 0 {
      FieldAbove(y, s1 - 1, s2 - 1, n2);
    } else if n2 > 0 {
      FieldAbove(y, s1 - 1, 0, n2 - 1);
    }
  }

  lemma {:induction false} ShrOfLow(x: int, n: nat, s: nat)
    requires n <= s
    ensures Shr(Low(x, n), s) == 0
    decreases s
  {
    if n > 0 {
      ShrOfLow(x / 2, n - 1, s - 1);
    } else if s > 0 {
      ShrOfLow(0, 0, s - 1);
    }
  }

  /** Nor does one below. */
  lemma {:induction false} FieldBelow(x: int, n1: nat, s1: nat, s2: nat)
    requires s1 + n1 <= s2
    ensures Shr(Shl(Low(x, n1), s1), s2) == 0
  {
    if s1 > 0 {
      FieldBelow(x, n1, s1 - 1, s2 - 1);
    } else {
      ShrOfLow(x, n1, s2);
    }
  }

  lemma {:induction false} LowOfZero(n: nat)
    ensures Low(0, n) == 0
  {
    if n > 0 {
      LowOfZero(n - 1);
    }
  }

  // ----- tables -----

  datatype Kind = Address | Register | Spr | Tbr | Literal | Number

  /** `kind` is the first of the hints, in the order in which both routines ask for them. */
  datatype Operand = Operand(bits: nat, shift: nat, silent: bool, kind: Kind, isRA: bool)

  /** An operand as the table may have it. */
  predicate IsOperand(o: Operand) {
    && o.bits < 32 && o.bits + o.shift <= 32
    && (o.kind == Address ==> 1 <= o.bits <= 30)
  }

  /** `fields` are the operand numbers before the terminating 0, in the order in which they are written. */
  datatype Opcode = Opcode(opcode: u32, fields: seq<nat>, relative: bool, ra0Is0: bool)

  predicate IsOpcode(op: Opcode, table: seq<Operand>) {
    && |op.fields| < 8
    && (forall k :: 0 <= k < |op.fields| ==> 1 <= op.fields[k] <= |table|)
    && forall i :: 0 <= i < |table| ==> IsOperand(table[i])
  }

  /** The k-th operand of an opcode. */
  function Nth(op: Opcode, table: seq<Operand>, k: nat): (o: Operand)
    requires IsOpcode(op, table) && k < |op.fields|
    ensures IsOperand(o)
  {
    assert 1 <= op.fields[k] <= |table|;
    table[op.fields[k] - 1]
  }

  predicate Apart(a: Operand, b: Operand) {
    a.shift + a.bits <= b.shift || b.shift + b.bits <= a.shift
  }

  /** The operands that are written do not overlap, and the opcode leaves their bits 0. */
  predicate HasRoom(op: Opcode, table: seq<Operand>)
    requires IsOpcode(op, table)
  {
    && (forall i, j :: 0 <= i < j < |op.fields| && !Nth(op, table, i).silent && !Nth(op, table, j).silent ==>
         Apart(Nth(op, table, i), Nth(op, table, j)))
    && forall k :: 0 <= k < |op.fields| && !Nth(op, table, k).silent ==> Field(op.opcode, Nth(op, table, k)) == 0
  }

  /** (instr >> shift) & ((1 << bits) - 1). */
  function Field(instr: nat, o: Operand): nat {
    Low(Shr(instr, o.shift), o.bits)
  }

  /** What reads the text of an operand. */
  datatype Readers = Readers(number: string -> i32, spr: string -> i32, tbr: string -> i32)

  // ----- one operand -----

  datatype Error = NumOperands | BadRegister | BadSpr | BadTbr
  datatype Result<T> = Ok(value: T) | Err(error: Error)

  function Wrap(x: int): u32 { x % 0x1_0000_0000 }

  function Signed(x: int): i32 {
    if Wrap(x) < 0x8000_0000 then Wrap(x) else Wrap(x) - 0x1_0000_0000
  }

  /** How far a branch goes, or where, if the opcode is not a relative one. */
  function Distance(target: i32, memaddr: u32, relative: bool): i32 {
    if relative then Signed(target - memaddr) else target
  }

  function AddressData(distance: i32, bits: nat): nat
    requires bits >= 1
  {
    var data := Low(distance / 4, bits - 1);
    if distance < 0 then Or(data, Pow2(bits - 1)) else data
  }

  /** A register's number, after "r", "R", "%r" or "%R". */
  function RegisterText(txt: string): string {
    if |txt| > 0 && txt[0] in "rR" then txt[1..]
    else if |txt| > 1 && txt[0] == '%' && txt[1] in "rR" then txt[2..]
    else txt
  }

  /** The number that an operand stands for, before it is cut to its bits. */
  function OperandData(memaddr: u32, op: Opcode, o: Operand, txt: string, read: Readers): Result<int>
    requires IsOperand(o)
  {
    match o.kind
    case Address => Ok(AddressData(Distance(read.number(txt), memaddr, op.relative), o.bits))
    case Register =>
      var data := read.number(RegisterText(txt));
      if data > 31 then Err(BadRegister) else Ok(data)
    case Spr => if read.spr(txt) == 0 then Err(BadSpr) else Ok(read.spr(txt))
    case Tbr => if read.tbr(txt) == 0 then Err(BadTbr) else Ok(read.tbr(txt))
    case _ => Ok(read.number(txt))
  }

  function ParseOperand(memaddr: u32, op: Opcode, o: Operand, txt: string, read: Readers): Result<nat>
    requires IsOperand(o)
  {
    match OperandData(memaddr, op, o, txt, read)
    case Ok(data) => Ok(Shl(Low(data, o.bits), o.shift))
    case Err(e) => Err(e)
  }

  /** An operand's own field gives it back, cut to its bits. */
  lemma OwnField(data: int, o: Operand)
    ensures Field(Shl(Low(data, o.bits), o.shift), o) == Low(data, o.bits)
  {
    ShrOfShl(Low(data, o.bits), o.shift);
    LowOfLow(data, o.bits);
  }

  /** A field apart from it does not see it. */
  lemma OtherField(data: int, a: Operand, b: Operand)
    requires Apart(a, b)
    ensures Field(Shl(Low(data, a.bits), a.shift), b) == 0
  {
    if b.shift + b.bits <= a.shift {
      FieldAbove(Low(data, a.bits), a.shift, b.shift, b.bits);
    } else {
      FieldBelow(data, a.bits, a.shift, b.shift);
      LowOfZero(b.bits);
    }
  }

  lemma {:induction false} ShlBound(y: nat, n: nat, s: nat)
    requires y < Pow2(n)
    ensures Shl(y, s) < Pow2(n + s)
  {
    if s > 0 {
      ShlBound(y, n, s - 1);
    }
  }

  lemma {:induction false} PowGrows(m: nat, n: nat)
    requires m <= n
    ensures Pow2(m) <= Pow2(n)
  {
    if m < n {
      PowGrows(m, n - 1);
    }
  }

  lemma {:induction false} OrBound(a: nat, b: nat, n: nat)
    requires a < Pow2(n) && b < Pow2(n)
    ensures Or(a, b) < Pow2(n)
  {
    if n > 0 {
      OrByHalves(a, b);
      OrBound(a / 2, b / 2, n - 1);
    }
  }

  /** An operand fits in the word, and is never taken for the error value -1. */
  lemma ParamIsNotError(memaddr: u32, op: Opcode, o: Operand, txt: string, read: Readers)
    requires IsOperand(o) && ParseOperand(memaddr, op, o, txt, read).Ok?
    ensures ParseOperand(memaddr, op, o, txt, read).value < 0xffff_ffff
  {
    var data := OperandData(memaddr, op, o, txt, read).value;
    LowBound(data, o.bits);
    ShlBound(Low(data, o.bits), o.bits, o.shift);
    PowGrows(o.bits + o.shift, 32);
    PowGrows(o.bits, 31);
    WordPowers();
  }

  // ----- a whole instruction -----

  /** An instruction being read: its address, what the line says after the opcode, and the readers. */
  datatype Line = Line(memaddr: u32, op: Opcode, table: seq<Operand>, words: seq<string>, read: Readers)

  predicate IsLine(a: Line) { IsOpcode(a.op, a.table) }

  function Oper(a: Line, k: nat): (o: Operand)
    requires IsLine(a) && k < |a.op.fields|
    ensures IsOperand(o)
  {
    Nth(a.op, a.table, k)
  }

  /** How many words the first k operands take. */
  function WordsFor(a: Line, k: nat): nat
    requires IsLine(a) && k <= |a.op.fields|
  {
    if k == 0 then 0 else WordsFor(a, k - 1) + if Oper(a, k - 1).silent then 0 else 1
  }

  /** What operand k comes to: nothing if it is silent. */
  function Param(a: Line, k: nat): Result<nat>
    requires IsLine(a) && k < |a.op.fields|
  {
    if Oper(a, k).silent then Ok(0)
    else if WordsFor(a, k) >= |a.words| || a.words[WordsFor(a, k)] == "" then Err(NumOperands)
    else ParseOperand(a.memaddr, a.op, Oper(a, k), a.words[WordsFor(a, k)], a.read)
  }

  /** The first k operands can all be read. */
  predicate Readable(a: Line, k: nat)
    requires IsLine(a) && k <= |a.op.fields|
  {
    forall j :: 0 <= j < k ==> Param(a, j).Ok?
  }

  /** The opcode with the first k operands. */
  function Assembled(a: Line, k: nat): nat
    requires IsLine(a) && k <= |a.op.fields| && Readable(a, k)
  {
    if k == 0 then a.op.opcode else Or(Assembled(a, k - 1), Param(a, k - 1).value)
  }

  /** The operand loop of asmppc; `err` is what `*err` is set to, if anything. */
  method Asmppc(a: Line) returns (instr: nat, err: Result<()>)
    requires IsLine(a)
    ensures err.Ok? <==> Readable(a, |a.op.fields|)
    ensures err.Ok? ==> instr == Assembled(a, |a.op.fields|)
    // otherwise the first operand that cannot be read says what is wrong
    ensures err.Err? ==> instr == 0
    ensures err.Err? ==> exists k :: 0 <= k < |a.op.fields| && Readable(a, k) && Param(a, k) == Err(err.error)
  {
    var wanted, n, next := |a.op.fields|, 0, 0;
    instr := a.op.opcode;
    while n < wanted
      invariant n <= wanted && Readable(a, n)
      invariant next == WordsFor(a, n)
      invariant instr == Assembled(a, n)
    {
      var o := Oper(a, n);
      if o.silent {
        OrWithZero(instr);
        n := n + 1;
        continue;
      }
      if next >= |a.words| || a.words[next] == "" {
        break;
      }
      var param := ParseOperand(a.memaddr, a.op, o, a.words[next], a.read);
      assert param == Param(a, n);
      if param.Err? {
        return 0, Err(param.error);
      }
      instr := Or(instr, param.value);
      next := next + 1;
      n := n + 1;
    }
    if n < wanted {
      assert Param(a, n) == Err(NumOperands);
      return 0, Err(NumOperands);
    }
    err := Ok(());
  }

  lemma {:induction false} OrWithZero(a: nat)
    ensures Or(a, 0) == a
  {
    if a != 0 {
      OrWithZero(a / 2);
    }
  }

  /** Whatever line is read, no operand of it disturbs another: with the first k operands in, each of
      them is in its field, and the fields of the others are still 0. */
  lemma {:induction false} FieldsAssembled(a: Line, k: nat, i: nat)
    requires IsLine(a) && HasRoom(a.op, a.table) && k <= |a.op.fields| && Readable(a, k)
    requires i < |a.op.fields| && !Oper(a, i).silent
    ensures Field(Assembled(a, k), Oper(a, i)) == if i < k then Low(Data(a, i), Oper(a, i).bits) else 0
  {
    if k > 0 {
      FieldsAssembled(a, k - 1, i);
      FieldOfParam(a, k - 1, i);
      var p, was := Param(a, k - 1).value, Assembled(a, k - 1);
      ShrOfOr(was, p, Oper(a, i).shift);
      LowOfOr(Shr(was, Oper(a, i).shift), Shr(p, Oper(a, i).shift), Oper(a, i).bits);
    }
  }

  /** The number that operand k stands for. */
  function Data(a: Line, k: nat): int
    requires IsLine(a) && k < |a.op.fields| && Param(a, k).Ok? && !Oper(a, k).silent
  {
    OperandData(a.memaddr, a.op, Oper(a, k), a.words[WordsFor(a, k)], a.read).value
  }

  lemma FieldOfParam(a: Line, k: nat, i: nat)
    requires IsLine(a) && HasRoom(a.op, a.table) && k < |a.op.fields| && Param(a, k).Ok?
    requires i < |a.op.fields| && !Oper(a, i).silent
    ensures Field(Param(a, k).value, Oper(a, i)) == if i == k then Low(Data(a, i), Oper(a, i).bits) else 0
  {
    if Oper(a, k).silent {
      ShrOfZero(Oper(a, i).shift);
      LowOfZero(Oper(a, i).bits);
    } else if i == k {
      OwnField(Data(a, k), Oper(a, k));
    } else {
      OtherField(Data(a, k), Oper(a, k), Oper(a, i));
    }
  }

  lemma ShrOfZero(s: nat)
    ensures Shr(0, s) == 0
  {
  }

  /** Bits that belong to no operand stay as the opcode has them. */
  lemma {:induction false} OpcodeIsKept(a: Line, k: nat, at: Operand)
    requires IsLine(a) && k <= |a.op.fields| && Readable(a, k)
    requires forall j :: 0 <= j < |a.op.fields| && !Oper(a, j).silent ==> Apart(Oper(a, j), at)
    ensures Field(Assembled(a, k), at) == Field(a.op.opcode, at)
  {
    if k > 0 {
      OpcodeIsKept(a, k - 1, at);
      var p, was := Param(a, k - 1).value, Assembled(a, k - 1);
      if Oper(a, k - 1).silent {
        OrWithZero(was);
      } else {
        OtherField(Data(a, k - 1), Oper(a, k - 1), at);
        ShrOfOr(was, p, at.shift);
        LowOfOr(Shr(was, at.shift), Shr(p, at.shift), at.bits);
      }
    }
  }

  lemma {:induction false} AssembledIsWord(a: Line, k: nat)
    requires IsLine(a) && k <= |a.op.fields| && Readable(a, k)
    ensures Assembled(a, k) < 0x1_0000_0000
  {
    WordPowers();
    if k > 0 {
      AssembledIsWord(a, k - 1);
      assert Param(a, k - 1).Ok?;
      if !Oper(a, k - 1).silent {
        ParamIsNotError(a.memaddr, a.op, Oper(a, k - 1), a.words[WordsFor(a, k - 1)], a.read);
      }
      OrBound(Assembled(a, k - 1), Param(a, k - 1).value, 32);
    }
  }

  // ----- taking operands out -----

  /** get_operand_value: whether the opcode has the operand, and its value. */
  method GetOperandValue(op: Opcode, table: seq<Operand>, instr: u32, field: nat) returns (value: Option<nat>)
    requires IsOpcode(op, table) && field > 0
    ensures value == if field in op.fields then Some(Field(instr, table[field - 1])) else None
  {
    if field > |table| {
      return None;
    }
    for i := 0 to |op.fields|
      invariant field !in op.fields[..i]
    {
      if op.fields[i] == field {
        return Some(Field(instr, table[field - 1]));
      }
    }
    value := None;
  }

  datatype Shown = AddressIs(address: u32) | ZeroBase | RegisterIs(value: nat) | SprIs(value: nat) | TbrIs(value: nat)
    | LiteralIs | NumberIs(value: nat)

  /** A field as a signed number. */
  function SignedField(operand: nat, bits: nat): int
    requires bits >= 1
  {
    if Low(Shr(operand, bits - 1), 1) != 0 then operand - Pow2(bits) else operand
  }

  /** The address that a field stands for. */
  function AddressOf(operand: nat, bits: nat, relative: bool, virtual: u32): u32
    requires bits >= 1
  {
    Wrap(SignedField(operand, bits) * 4 + if relative then virtual else 0)
  }

  /** What an operand is shown as. */
  function ShownAs(operand: nat, o: Operand, op: Opcode, virtual: u32): Shown
    requires IsOperand(o)
  {
    match o.kind
    case Address => AddressIs(AddressOf(operand, o.bits, op.relative, virtual))
    case Register => if operand == 0 && o.isRA && op.ra0Is0 then ZeroBase else RegisterIs(operand)
    case Spr => SprIs(operand)
    case Tbr => TbrIs(operand)
    case Literal => LiteralIs
    case Number => NumberIs(operand % 0x1_0000)
  }

  /** The operand loop of print_operands: the values that it prints, in order. */
  method PrintOperands(op: Opcode, table: seq<Operand>, instr: u32, virtual: u32) returns (shown: seq<Shown>)
    requires IsOpcode(op, table)
    ensures shown == ShownOperands(op, table, instr, virtual, |op.fields|)
  {
    shown := [];
    for field := 0 to |op.fields|
      invariant shown == ShownOperands(op, table, instr, virtual, field)
    {
      var o := Nth(op, table, field);
      if !o.silent {
        shown := shown + [ShownAs(Field(instr, o), o, op, virtual)];
      }
    }
  }

  function ShownOperands(op: Opcode, table: seq<Operand>, instr: nat, virtual: u32, k: nat): seq<Shown>
    requires IsOpcode(op, table) && k <= |op.fields|
  {
    if k == 0 then []
    else
      var o := Nth(op, table, k - 1);
      ShownOperands(op, table, instr, virtual, k - 1)
      + if o.silent then [] else [ShownAs(Field(instr, o), o, op, virtual)]
  }

  /** Disassembling an assembled line shows one value for each word that was read, and each is the value
      of the word there, cut to the bits of its operand. */
  lemma LineReadsBack(a: Line, k: nat, i: nat)
    requires IsLine(a) && HasRoom(a.op, a.table) && Readable(a, |a.op.fields|)
    requires i < k <= |a.op.fields| && !Oper(a, i).silent
    ensures var shown := ShownOperands(a.op, a.table, Assembled(a, |a.op.fields|), a.memaddr, k);
            && |shown| == WordsFor(a, k) && WordsFor(a, i) < WordsFor(a, k)
            && shown[WordsFor(a, i)] == ShownAs(Low(Data(a, i), Oper(a, i).bits), Oper(a, i), a.op, a.memaddr)
  {
    ShownInPlace(a, Assembled(a, |a.op.fields|), k, i);
    FieldsAssembled(a, |a.op.fields|, i);
  }

  /** Operand i is shown at the place of the word it takes. */
  lemma {:induction false} ShownInPlace(a: Line, instr: nat, k: nat, i: nat)
    requires IsLine(a) && i < k <= |a.op.fields| && !Oper(a, i).silent
    ensures var shown := ShownOperands(a.op, a.table, instr, a.memaddr, k);
            && |shown| == WordsFor(a, k) && WordsFor(a, i) < WordsFor(a, k)
            && shown[WordsFor(a, i)] == ShownAs(Field(instr, Oper(a, i)), Oper(a, i), a.op, a.memaddr)
  {
    ShownCount(a, instr, k - 1);
    if i < k - 1 {
      ShownInPlace(a, instr, k - 1, i);
    }
  }

  lemma {:induction false} ShownCount(a: Line, instr: nat, k: nat)
    requires IsLine(a) && k <= |a.op.fields|
    ensures |ShownOperands(a.op, a.table, instr, a.memaddr, k)| == WordsFor(a, k)
  {
    if k > 0 {
      ShownCount(a, instr, k - 1);
    }
  }

  // ----- branches -----

  lemma {:induction false} OrOfBitAbove(x: int, n: nat)
    ensures Or(Low(x, n), Pow2(n)) == Low(x, n) + Pow2(n)
    decreases n
  {
    if n == 0 {
      assert Or(0, 1) == 1;
    } else {
      OrOfBitAbove(x / 2, n - 1);
    }
  }

  lemma {:induction false} TopBit(y: nat, n: nat)
    requires y < 2 * Pow2(n)
    ensures Low(Shr(y, n), 1) == if y < Pow2(n) then 0 else 1
  {
    if n > 0 {
      TopBit(y / 2, n - 1);
    }
  }

  /** The signed number of words that a distance is cut to. */
  function CutWords(distance: i32, bits: nat): int
    requires bits >= 1
  {
    var low := Low(distance / 4, bits - 1);
    if distance < 0 then low - Pow2(bits - 1) else low
  }

  predicate InReach(distance: int, bits: nat) {
    var reach: int := Pow2(bits + 1);
    -reach <= distance < reach
  }

  /** The sign bit that AddressData sets is the one that AddressOf looks at. */
  lemma SignBit(q: int, neg: bool, bits: nat)
    requires bits >= 1
    ensures var low := Low(q, bits - 1); var d := if neg then Or(low, Pow2(bits - 1)) else low;
            && d < Pow2(bits) && d == (if neg then low + Pow2(bits - 1) else low)
            && Low(Shr(d, bits - 1), 1) == if neg then 1 else 0
  {
    var low := Low(q, bits - 1);
    OrOfBitAbove(q, bits - 1);
    LowBound(q, bits - 1);
    TopBit(if neg then low + Pow2(bits - 1) else low, bits - 1);
  }

  lemma AddressDecodes(distance: i32, bits: nat)
    requires bits >= 1
    ensures AddressData(distance, bits) < Pow2(bits)
    ensures SignedField(AddressData(distance, bits), bits) == CutWords(distance, bits)
  {
    SignBit(distance / 4, distance < 0, bits);
  }

  lemma CutIsExactIff(distance: i32, bits: nat)
    requires 1 <= bits <= 30
    ensures CutWords(distance, bits) * 4 == distance <==>
            distance % 4 == 0 && InReach(distance, bits)
    ensures -0x8000_0000 <= CutWords(distance, bits) * 4 < 0x8000_0000
  {
    var p, q := Pow2(bits - 1), distance / 4;
    LowIsMod(q, bits - 1);
    assert Pow2(bits + 1) == 4 * p;
    PowGrows(bits - 1, 29);
    WordPowers();
    if 0 <= q < p {
      Arithmetic.ModUnique(q, p, 0, q);
    }
    if -p <= q < 0 {
      Arithmetic.ModUnique(q, p, -1, q + p);
    }
  }

  lemma WrapIsInjective(x: int, y: int, base: int)
    requires -0x8000_0000 <= x < 0x8000_0000 && -0x8000_0000 <= y < 0x8000_0000
    ensures Wrap(x + base) == Wrap(y + base) <==> x == y
  {
  }

  lemma DistanceLeadsBack(target: i32, memaddr: u32, relative: bool)
    ensures Wrap(Distance(target, memaddr, relative) + if relative then memaddr else 0) == Wrap(target)
  {
  }

  /** A branch that is assembled and disassembled shows the target that was written if and only if the
      distance is a whole number of words and lies in [-2^(bits+1), 2^(bits+1)). */
  lemma BranchRoundTrip(target: i32, memaddr: u32, bits: nat, relative: bool)
    requires 1 <= bits <= 30
    ensures var d := Distance(target, memaddr, relative);
            && Low(AddressData(d, bits), bits) == AddressData(d, bits)
            && (AddressOf(AddressData(d, bits), bits, relative, memaddr) == Wrap(target) <==>
                d % 4 == 0 && InReach(d, bits))
  {
    var d, base := Distance(target, memaddr, relative), if relative then memaddr else 0;
    AddressDecodes(d, bits);
    CutIsExactIff(d, bits);
    WrapIsInjective(CutWords(d, bits) * 4, d, base);
    DistanceLeadsBack(target, memaddr, relative);
    LowOfSmall(AddressData(d, bits), bits);
  }

  /** So it is in a whole instruction: word number WordsFor(a, i) of the line, a branch target, is shown
      again exactly when it is in reach. */
  lemma TargetReadsBack(a: Line, i: nat)
    requires IsLine(a) && HasRoom(a.op, a.table) && Readable(a, |a.op.fields|)
    requires i < |a.op.fields| && !Oper(a, i).silent && Oper(a, i).kind == Address
    ensures WordsFor(a, i) < |a.words|
    ensures var target := a.read.number(a.words[WordsFor(a, i)]);
            var d := Distance(target, a.memaddr, a.op.relative);
            var shown := ShownOperands(a.op, a.table, Assembled(a, |a.op.fields|), a.memaddr, |a.op.fields|);
            && WordsFor(a, i) < |shown|
            && (shown[WordsFor(a, i)] == AddressIs(Wrap(target)) <==> d % 4 == 0 && InReach(d, Oper(a, i).bits))
  {
    assert Param(a, i).Ok?;
    var target := a.read.number(a.words[WordsFor(a, i)]);
    LineReadsBack(a, |a.op.fields|, i);
    BranchRoundTrip(target, a.memaddr, Oper(a, i).bits, a.op.relative);
  }

  lemma LowOfSmall(x: nat, n: nat)
    requires x < Pow2(n)
    ensures Low(x, n) == x
  {
  }

  lemma LowIsItselfIff(data: i32, bits: nat)
    ensures Low(data, bits) == data <==> 0 <= data < Pow2(bits)
  {
  }

  /** The number that an operand's text stands for, if it is neither an address nor a special register. */
  function Written(o: Operand, txt: string, read: Readers): i32 {
    if o.kind == Register then read.number(RegisterText(txt)) else read.number(txt)
  }

  /** A number that is accepted reads back as it was written if and only if it is not negative and fits
      its bits. */
  lemma NumberRoundTrip(memaddr: u32, op: Opcode, o: Operand, txt: string, read: Readers)
    requires IsOperand(o) && (o.kind == Register || o.kind == Number)
    ensures var p, n := ParseOperand(memaddr, op, o, txt, read), Written(o, txt, read);
            && (p.Err? <==> o.kind == Register && n > 31)
            && (p.Ok? ==> (Field(p.value, o) == n <==> 0 <= n < Pow2(o.bits)))
  {
    var n := Written(o, txt, read);
    OwnField(n, o);
    LowIsItselfIff(n, o.bits);
  }

  // ----- what is shown for what was written -----

  /** The word that operand i takes, in a line that assembles. */
  function WordOf(a: Line, i: nat): string
    requires IsLine(a) && Readable(a, |a.op.fields|) && i < |a.op.fields| && !Oper(a, i).silent
  {
    assert Param(a, i).Ok?;
    a.words[WordsFor(a, i)]
  }

  /** What is shown at its place. */
  ghost function ShownFor(a: Line, i: nat): Shown
    requires IsLine(a) && HasRoom(a.op, a.table) && Readable(a, |a.op.fields|)
    requires i < |a.op.fields| && !Oper(a, i).silent
  {
    LineReadsBack(a, |a.op.fields|, i);
    ShownOperands(a.op, a.table, Assembled(a, |a.op.fields|), a.memaddr, |a.op.fields|)[WordsFor(a, i)]
  }

  /** A register n is shown as n; register 0 as a plain 0 exactly if it is a base that the opcode takes for
      the number 0. */
  lemma RegisterReadsBack(a: Line, i: nat, n: nat)
    requires IsLine(a) && HasRoom(a.op, a.table) && Readable(a, |a.op.fields|)
    requires i < |a.op.fields| && !Oper(a, i).silent && Oper(a, i).kind == Register && Oper(a, i).bits == 5
    requires a.read.number(RegisterText(WordOf(a, i))) == n
    ensures n <= 31
    ensures ShownFor(a, i) == if n == 0 && Oper(a, i).isRA && a.op.ra0Is0 then ZeroBase else RegisterIs(n)
  {
    assert Param(a, i).Ok?;
    LineReadsBack(a, |a.op.fields|, i);
    FiveBits();
    LowOfSmall(n, 5);
  }

  /** A number is shown as its low 16 bits, after it was cut to the bits of its operand. */
  lemma NumberReadsBack(a: Line, i: nat)
    requires IsLine(a) && HasRoom(a.op, a.table) && Readable(a, |a.op.fields|)
    requires i < |a.op.fields| && !Oper(a, i).silent && Oper(a, i).kind == Number
    ensures ShownFor(a, i) == NumberIs(a.read.number(WordOf(a, i)) % Pow2(Oper(a, i).bits) % 65536)
  {
    assert Param(a, i).Ok?;
    LineReadsBack(a, |a.op.fields|, i);
    LowIsMod(a.read.number(WordOf(a, i)), Oper(a, i).bits);
  }

  /** A special or a time base register is shown as the code that its own reader found, which is not 0, cut
      to the bits of the operand. */
  lemma SpecialReadsBack(a: Line, i: nat)
    requires IsLine(a) && HasRoom(a.op, a.table) && Readable(a, |a.op.fields|)
    requires i < |a.op.fields| && !Oper(a, i).silent
    ensures Oper(a, i).kind == Spr ==> var code := a.read.spr(WordOf(a, i));
            code != 0 && ShownFor(a, i) == SprIs(code % Pow2(Oper(a, i).bits))
    ensures Oper(a, i).kind == Tbr ==> var code := a.read.tbr(WordOf(a, i));
            code != 0 && ShownFor(a, i) == TbrIs(code % Pow2(Oper(a, i).bits))
  {
    assert Param(a, i).Ok?;
    LineReadsBack(a, |a.op.fields|, i);
    LowIsMod(a.read.spr(WordOf(a, i)), Oper(a, i).bits);
    LowIsMod(a.read.tbr(WordOf(a, i)), Oper(a, i).bits);
  }

  /** A register may be written with r, R, %r or %R before its number, or without. */
  lemma RegisterSpellings(number: string)
    requires number != "" && number[0] !in "rR%"
    ensures RegisterText("r" + number) == RegisterText("R" + number) == number
    ensures RegisterText("%r" + number) == RegisterText("%R" + number) == RegisterText(number) == number
  {
    assert ("r" + number)[1..] == ("R" + number)[1..] == number;
    assert ("%r" + number)[2..] == ("%R" + number)[2..] == number;
  }

  /** What is wrong with an operand that cannot be read. */
  lemma ErrorIs(memaddr: u32, op: Opcode, o: Operand, txt: string, read: Readers)
    requires IsOperand(o)
    ensures var p := ParseOperand(memaddr, op, o, txt, read);
            && (p == Err(BadRegister) <==> o.kind == Register && read.number(RegisterText(txt)) > 31)
            && (p == Err(BadSpr) <==> o.kind == Spr && read.spr(txt) == 0)
            && (p == Err(BadTbr) <==> o.kind == Tbr && read.tbr(txt) == 0)
            && p != Err(NumOperands)
  {
  }

  /** A field is the bits from shift on of the word; an operand's bits are put there. */
  lemma FieldIsBits(x: nat, o: Operand)
    ensures Field(x, o) == x / Pow2(o.shift) % Pow2(o.bits)
  {
    ShrIsDiv(x, o.shift);
    LowIsMod(Shr(x, o.shift), o.bits);
  }

  lemma {:induction false} ShrIsDiv(x: nat, s: nat)
    ensures Shr(x, s) == x / Pow2(s)
    decreases s
  {
    if s > 0 {
      ShrIsDiv(x / 2, s - 1);
      HalfDiv(x, Pow2(s - 1));
    }
  }

  lemma HalfDiv(x: nat, p: nat)
    requires p >= 1
    ensures x / 2 / p == x / (2 * p)
  {
    HalfMod(x, p);
    var q := x / 2 / p;
    assert x / 2 == q * p + x / 2 % p && q * (2 * p) == 2 * (q * p);
    assert x == q * (2 * p) + x % (2 * p);
    assert (x / (2 * p)) * (2 * p) == q * (2 * p);
    SameFactor(x / (2 * p), q, 2 * p);
  }

  lemma SameFactor(a: int, b: int, m: int)
    requires m >= 1 && a * m == b * m
    ensures a == b
  {
    if a > b {
      Arithmetic.MulGrows(a - b, m);
    } else if b > a {
      Arithmetic.MulGrows(b - a, m);
    }
  }

  /** Within reach, a branch's field holds the number of words it goes, in two's complement. */
  lemma BranchFieldIsWords(d: i32, bits: nat)
    requires 1 <= bits <= 30 && d % 4 == 0 && InReach(d, bits)
    ensures AddressData(d, bits) == d / 4 % Pow2(bits)
  {
    AddressDecodes(d, bits);
    CutIsExactIff(d, bits);
    SignBit(d / 4, d < 0, bits);
    var w, p: int := d / 4, Pow2(bits);
    assert AddressData(d, bits) == if d < 0 then w + p else w;
    Arithmetic.ModUnique(w, p, if d < 0 then -1 else 0, AddressData(d, bits));
  }

  /** The distance is the difference of the addresses, where that is no more than half the address range. */
  lemma DistanceIsDifference(target: i32, memaddr: u32)
    ensures Distance(target, memaddr, false) == target
    ensures -0x8000_0000 <= target - memaddr < 0x8000_0000 ==> Distance(target, memaddr, true) == target - memaddr
  {
  }

  /** The field of a register that is accepted. */
  lemma RegisterField(memaddr: u32, op: Opcode, o: Operand, txt: string, read: Readers)
    requires IsOperand(o) && o.kind == Register
    ensures var p, n := ParseOperand(memaddr, op, o, txt, read), read.number(RegisterText(txt));
            (p.Ok? <==> n <= 31) && (p.Ok? ==> Field(p.value, o) == Low(n, o.bits))
  {
    OwnField(read.number(RegisterText(txt)), o);
  }

  lemma FiveBits()
    ensures Pow2(5) == 32 && Low(-1, 5) == 31
  {
    assert Pow2(5) == 2 * Pow2(4) == 4 * Pow2(3) == 8 * Pow2(2) == 16 * Pow2(1) == 32;
    LowIsMod(-1, 5);
  }

  lemma NumberAfterR()
    ensures RegisterText("r-1") == "-1"
  {
  }

  /** So a register that is accepted reads back if and only if its number is not negative. */
  lemma RegisterRoundTrip(memaddr: u32, op: Opcode, o: Operand, txt: string, read: Readers)
    requires IsOperand(o) && o.kind == Register && o.bits == 5
    ensures var p, n := ParseOperand(memaddr, op, o, txt, read), Written(o, txt, read);
            (p.Ok? <==> n <= 31) && (p.Ok? ==> (Field(p.value, o) == n <==> n >= 0))
  {
    FiveBits();
    NumberRoundTrip(memaddr, op, o, txt, read);
  }

  /** Negative ones are accepted: r-1 is taken for r31. */
  lemma NegativeRegisterIsAccepted(memaddr: u32, op: Opcode, o: Operand, read: Readers)
    requires IsOperand(o) && o.kind == Register && o.bits == 5 && read.number("-1") == -1
    ensures var p := ParseOperand(memaddr, op, o, "r-1", read); p.Ok? && Field(p.value, o) == 31
  {
    NumberAfterR();
    FiveBits();
    RegisterField(memaddr, op, o, "r-1", read);
  }
}
