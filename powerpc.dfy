/**
 * Rendering of PowerPC instructions: the mnemonic text (with a trailing "."
 * on the record forms, which set condition register field 0), address
 * operands written with a leading "$", and condition-register bit operands
 * written as "cr<n>+<bit>" or just "<bit>" for field 0.
 */
module PowerPC {
  import opened Wrappers

  newtype u32 = x: int | 0 <= x < 0x1_0000_0000

  /** The instruction classes the disassembler assigns; the three-operand form is Linear. */
  datatype InstrClass = Invalid | Linear | Transfer | Conditional | Call

  /**
   * The operands an instruction holds. An address renders from its own text;
   * the rendering of registers and immediates belongs to their own classes,
   * so they carry their rendered text.
   */
  datatype Operand =
    | AddressOperand(addressText: string)
    | ConditionOperand(condition: u32)
    | OtherOperand(text: string)

  datatype PowerPcInstruction = PowerPcInstruction(
    mnemonic: string,
    operands: seq<Operand>,
    setsCR0: bool,
    instrClass: InstrClass)

  /** The three-operand constructor: operands in order, the record flag, and class Linear. */
  function MakeInstruction(mnemonic: string, op1: Operand, op2: Operand, op3: Operand, setsCR0: bool): (i: PowerPcInstruction)
    ensures i.operands == [op1, op2, op3] && |i.operands| == 3
    ensures i.mnemonic == mnemonic && i.setsCR0 == setsCR0 && i.instrClass == Linear
  {
    PowerPcInstruction(mnemonic, [op1, op2, op3], setsCR0, Linear)
  }

  /** The mnemonic as rendered: its name, then "." when the instruction sets CR0. */
  function RenderMnemonic(i: PowerPcInstruction): (s: string)
  {
    i.mnemonic + (if i.setsCR0 then "." else "")
  }

  /** The rendering ends in "." exactly for the record forms, and starts with the mnemonic. */
  lemma RenderMnemonicShape(i: PowerPcInstruction)
    requires '.' !in i.mnemonic
    ensures |RenderMnemonic(i)| == |i.mnemonic| + (if i.setsCR0 then 1 else 0)
    ensures RenderMnemonic(i)[..|i.mnemonic|] == i.mnemonic
    ensures i.setsCR0 <==> |RenderMnemonic(i)| > 0 && RenderMnemonic(i)[|RenderMnemonic(i)| - 1] == '.'
  {
    var s := RenderMnemonic(i);
    assert s[..|i.mnemonic|] == i.mnemonic;
    if !i.setsCR0 && |s| > 0 {
      assert s[|s| - 1] in i.mnemonic;
    }
  }

  /** Reads a rendered mnemonic back into the name and the record flag. */
  function ParseMnemonic(s: string): (string, bool)
  {
    if |s| > 0 && s[|s| - 1] == '.' then (s[..|s| - 1], true) else (s, false)
  }

  /** Mnemonic names contain no ".", so the rendering loses nothing. */
  lemma ParseRenderMnemonic(i: PowerPcInstruction)
    requires '.' !in i.mnemonic
    ensures ParseMnemonic(RenderMnemonic(i)) == (i.mnemonic, i.setsCR0)
  {
    RenderMnemonicShape(i);
    var s := RenderMnemonic(i);
    if i.setsCR0 {
      assert s[..|s| - 1] == i.mnemonic;
    } else {
      assert s == i.mnemonic;
    }
  }

  // ---------------------------------------------------------------------
  // Operands.

  /** The decimal text of `n`, without leading zeros. */
  function Decimal(n: nat): (s: string)
    ensures |s| > 0 && forall k :: 0 <= k < |s| ==> '0' <= s[k] <= '9'
  {
    if n < 10 then [Digit(n)] else Decimal(n / 10) + [Digit(n % 10)]
  }

  function Digit(d: nat): (c: char)
    requires d < 10
    ensures '0' <= c <= '9'
  {
    ('0' as int + d) as char
  }

  /** The value of a string of decimal digits. */
  function DecimalValue(s: string): nat
    requires forall k :: 0 <= k < |s| ==> '0' <= s[k] <= '9'
  {
    if s == [] then 0 else 10 * DecimalValue(s[..|s| - 1]) + (s[|s| - 1] as int - '0' as int)
  }

  lemma {:induction false} DecimalRoundTrip(n: nat)
    ensures DecimalValue(Decimal(n)) == n
  {
    if n >= 10 {
      DecimalRoundTrip(n / 10);
      var s := Decimal(n);
      assert s[..|s| - 1] == Decimal(n / 10);
    }
  }

  /** The names of the four bits of a condition register field. */
  function ConditionBitName(bit: nat): (s: string)
    requires bit < 4
    ensures |s| == 2
  {
    match bit
    case 0 => "lt"
    case 1 => "gt"
    case 2 => "eq"
    case 3 => "so"
  }

  /** Different bits have different names. */
  lemma ConditionBitNamesDistinct(b1: nat, b2: nat)
    requires b1 < 4 && b2 < 4 && b1 != b2
    ensures ConditionBitName(b1) != ConditionBitName(b2)
  {
    var s1, s2 := ConditionBitName(b1), ConditionBitName(b2);
    assert s1[0] != s2[0] || s1[1] != s2[1];
  }

  /**
   * A condition-register bit: "cr<field>+" when the field (condition >> 2)
   * is not 0, then the bit's name (condition & 3).
   */
  function RenderCondition(condition: u32): (s: string)
    ensures |s| >= 2
  {
    var prefix := if condition > 3 then "cr" + Decimal(condition as nat / 4) + "+" else "";
    prefix + ConditionBitName(condition as nat % 4)
  }

  /** The field prefix appears exactly when the condition exceeds 3, and the last two characters name the bit. */
  lemma RenderConditionShape(condition: u32)
    ensures |RenderCondition(condition)| > 2 <==> condition > 3
    ensures RenderCondition(condition)[|RenderCondition(condition)| - 2..] == ConditionBitName(condition as nat % 4)
    ensures condition > 3 ==> RenderCondition(condition)[..2] == "cr"
  {
  }

  /** Reads a rendered condition back; None for text no condition renders to. */
  function ParseCondition(s: string): Option<nat>
  {
    if |s| == 2 then BitOfName(s)
    else if |s| >= 6 && s[..2] == "cr" && s[|s| - 3] == '+' then ParseField(s[2..|s| - 3], s[|s| - 2..])
    else None
  }

  /** The condition with field number `digits` and bit `name`. */
  function ParseField(digits: string, name: string): Option<nat>
  {
    var bit := BitOfName(name);
    if IsDecimal(digits) && bit.Some? then Some(4 * DecimalValue(digits) + bit.value) else None
  }

  predicate IsDecimal(s: string)
  {
    forall k :: 0 <= k < |s| ==> '0' <= s[k] <= '9'
  }

  function BitOfName(s: string): (r: Option<nat>)
    ensures r.Some? ==> r.value < 4 && ConditionBitName(r.value) == s
  {
    if s == "lt" then Some(0) else if s == "gt" then Some(1)
    else if s == "eq" then Some(2) else if s == "so" then Some(3) else None
  }

  /** Every condition renders to text from which it can be read back. */
  lemma ParseRenderCondition(condition: u32)
    ensures ParseCondition(RenderCondition(condition)) == Some(condition as nat)
  {
    var bit := condition as nat % 4;
    BitOfNameInverse(bit);
    if condition > 3 {
      var field := condition as nat / 4;
      ParsePrefixedCondition(Decimal(field), ConditionBitName(bit), bit);
      DecimalRoundTrip(field);
      assert RenderCondition(condition) == "cr" + Decimal(field) + "+" + ConditionBitName(bit);
    } else {
      assert RenderCondition(condition) == ConditionBitName(bit);
    }
  }

  lemma BitOfNameInverse(bit: nat)
    requires bit < 4
    ensures BitOfName(ConditionBitName(bit)) == Some(bit)
  {
  }

  /** Text with a field prefix reads back as four times the field plus the bit. */
  lemma ParsePrefixedCondition(digits: string, name: string, bit: nat)
    requires |digits| > 0 && IsDecimal(digits) && BitOfName(name) == Some(bit)
    ensures ParseCondition("cr" + digits + "+" + name) == Some(4 * DecimalValue(digits) + bit)
  {
    var s := "cr" + digits + "+" + name;
    assert |s| >= 6 && s[..2] == "cr" && s[|s| - 3] == '+';
    assert s[2..|s| - 3] == digits && s[|s| - 2..] == name;
    assert ParseCondition(s) == ParseField(digits, name);
    ParseFieldValue(digits, name, bit);
  }

  lemma ParseFieldValue(digits: string, name: string, bit: nat)
    requires IsDecimal(digits) && BitOfName(name) == Some(bit)
    ensures ParseField(digits, name) == Some(4 * DecimalValue(digits) + bit)
  {
  }

  /** How one operand renders inside a PowerPC instruction. */
  function RenderOperand(op: Operand): (s: string)
    ensures op.AddressOperand? ==> s == "$" + op.addressText
  {
    match op
    case AddressOperand(text) => "$" + text
    case ConditionOperand(c) => RenderCondition(c)
    case OtherOperand(text) => text
  }

  /** The rendered operands, in order. */
  function RenderOperands(ops: seq<Operand>): (r: seq<string>)
    ensures |r| == |ops|
    ensures forall k :: 0 <= k < |ops| ==> r[k] == RenderOperand(ops[k])
  {
    if ops == [] then [] else [RenderOperand(ops[0])] + RenderOperands(ops[1..])
  }
}
