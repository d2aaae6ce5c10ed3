/**
 * The width rules of the RISC-V floating point rewriter. Single-precision
 * values in wider floating point registers are NaN-boxed: the upper bits are
 * all ones (section 12.2, "NaN Boxing of Narrower Values", of the RISC-V
 * Unprivileged ISA, 20191213). Operands are sliced to the width of the
 * operation, results are boxed to the width of the destination, and the
 * rewriter appends the resulting assignments to its emitter in order.
 *
 * Expressions carry the bit size of their data type. Their meaning is given
 * as a little-endian bit string (element k is bit k) by `Eval`; registers,
 * temporaries and floating point operations take their bits from an
 * arbitrary valuation, so only the bit plumbing is interpreted.
 */
module RiscV {

  /** The expressions the rewriter builds. */
  datatype Expr =
    | Register(name: string, size: nat)
    | Temporary(name: string, size: nat)
    | Constant(size: nat, value: int)
    /** `head` in the upper bits, `tail` in the lower bits. */
    | Sequence(head: Expr, tail: Expr)
    /** The low `size` bits of `exp`. */
    | Slice(exp: Expr, size: nat)
    /** `dst` with the bits from `position` on replaced by `src`. */
    | Deposit(dst: Expr, src: Expr, position: nat)
    | Conversion(exp: Expr, fromSize: nat, toSize: nat)
    /** A binary floating point operation; its data type is its left operand's. */
    | Binary(op: string, left: Expr, right: Expr)
    | Negation(exp: Expr)

  function BitSize(e: Expr): nat
  {
    match e
    case Register(_, size) => size
    case Temporary(_, size) => size
    case Constant(size, _) => size
    case Sequence(head, tail) => BitSize(head) + BitSize(tail)
    case Slice(_, size) => size
    case Deposit(dst, _, _) => BitSize(dst)
    case Conversion(_, _, toSize) => toSize
    case Binary(_, left, _) => BitSize(left)
    case Negation(exp) => BitSize(exp)
  }

  function Max(a: nat, b: nat): nat { if a < b then b else a }
  function Min(a: nat, b: nat): nat { if a < b then a else b }

  /** The low `n` bits of `v` (two's complement for negative `v`). */
  function ToBits(v: int, n: nat): (bits: seq<bool>)
    ensures |bits| == n
    decreases n
  {
    if n == 0 then [] else [v % 2 == 1] + ToBits(v / 2, n - 1)
  }

  /** Minus one is all ones at every width. */
  lemma {:induction false} MinusOneAllOnes(n: nat)
    ensures forall k :: 0 <= k < n ==> ToBits(-1, n)[k]
  {
    if n > 0 {
      MinusOneAllOnes(n - 1);
      assert ToBits(-1, n) == [true] + ToBits(-1, n - 1);
    }
  }

  /** `bits` cut or zero-extended to `n` bits. */
  function Fit(bits: seq<bool>, n: nat): (r: seq<bool>)
    ensures |r| == n
  {
    if |bits| >= n then bits[..n] else bits + seq(n - |bits|, _ => false)
  }

  /**
   * The bits of `e`. `leaf` gives the bits of registers, temporaries and
   * floating point operations, fitted to their width.
   */
  function Eval(e: Expr, leaf: Expr -> seq<bool>): (v: seq<bool>)
    ensures |v| == BitSize(e)
  {
    match e
    case Constant(size, value) => ToBits(value, size)
    case Sequence(head, tail) => Eval(tail, leaf) + Eval(head, leaf)
    case Slice(exp, size) => Fit(Eval(exp, leaf), size)
    case Deposit(dst, src, position) =>
      var d, s := Eval(dst, leaf), Eval(src, leaf);
      if position + |s| <= |d| then d[..position] + s + d[position + |s|..] else d
    case _ => Fit(leaf(e), BitSize(e))
  }

  // ---------------------------------------------------------------------
  // The expression builders.

  /** An all-ones constant of `n` bits: the NaN box. */
  function NanBox(n: nat): Expr
  {
    Constant(n, -1)
  }

  /** Pads `exp` with ones up to `dstSize` bits; an expression at least that wide is returned as is. */
  function MaybeNanBox(exp: Expr, dstSize: nat): (r: Expr)
    ensures BitSize(r) == Max(BitSize(exp), dstSize)
    ensures BitSize(exp) < dstSize ==> r == Sequence(NanBox(dstSize - BitSize(exp)), exp)
    ensures BitSize(exp) >= dstSize ==> r == exp
  {
    var cbNanBox := dstSize - BitSize(exp);
    if cbNanBox > 0 then Sequence(NanBox(cbNanBox), exp) else exp
  }

  /** A boxed value keeps `exp` in its low bits and is all ones above them. */
  lemma NanBoxValue(exp: Expr, dstSize: nat, leaf: Expr -> seq<bool>)
    ensures Eval(MaybeNanBox(exp, dstSize), leaf)[..BitSize(exp)] == Eval(exp, leaf)
    ensures forall k :: BitSize(exp) <= k < dstSize ==> Eval(MaybeNanBox(exp, dstSize), leaf)[k]
  {
    var b := BitSize(exp);
    if b < dstSize {
      MinusOneAllOnes(dstSize - b);
      var v := Eval(MaybeNanBox(exp, dstSize), leaf);
      assert v == Eval(exp, leaf) + ToBits(-1, dstSize - b);
      forall k | b <= k < dstSize ensures v[k] {
        assert v[k] == ToBits(-1, dstSize - b)[k - b];
      }
    }
  }

  /** Cuts `exp` down to `size` bits when it is wider; otherwise returns it as is. */
  function MaybeSlice(exp: Expr, size: nat): (r: Expr)
    ensures BitSize(r) == Min(BitSize(exp), size)
    ensures BitSize(exp) > size ==> r == Slice(exp, size)
    ensures BitSize(exp) <= size ==> r == exp
  {
    if BitSize(exp) > size then Slice(exp, size) else exp
  }

  /** Either way, the result is the low bits of `exp`. */
  lemma SliceValue(exp: Expr, size: nat, leaf: Expr -> seq<bool>)
    ensures Eval(MaybeSlice(exp, size), leaf) == Eval(exp, leaf)[..Min(BitSize(exp), size)]
  {
  }

  /** Slicing a boxed value back to its own width recovers it. */
  lemma SliceUndoesNanBox(exp: Expr, dstSize: nat, leaf: Expr -> seq<bool>)
    ensures Eval(MaybeSlice(MaybeNanBox(exp, dstSize), BitSize(exp)), leaf) == Eval(exp, leaf)
  {
    NanBoxValue(exp, dstSize, leaf);
    SliceValue(MaybeNanBox(exp, dstSize), BitSize(exp), leaf);
  }

  /** What MaybeDpb stores into `dst`: a deposit of `src` at bit 0 when `dst` is wider, else `src`. */
  function DepositOrMove(dst: Expr, src: Expr): (r: Expr)
    ensures BitSize(dst) > BitSize(src) ==> BitSize(r) == BitSize(dst)
  {
    if BitSize(dst) > BitSize(src) then Deposit(dst, src, 0) else src
  }

  /** The low bits of the stored value are `src`; when `dst` is wider, its upper bits survive. */
  lemma DepositOrMoveValue(dst: Expr, src: Expr, leaf: Expr -> seq<bool>)
    ensures Eval(DepositOrMove(dst, src), leaf)[..BitSize(src)] == Eval(src, leaf)
    ensures BitSize(dst) > BitSize(src) ==>
      Eval(DepositOrMove(dst, src), leaf)[BitSize(src)..] == Eval(dst, leaf)[BitSize(src)..]
  {
    if BitSize(dst) > BitSize(src) {
      var d, s := Eval(dst, leaf), Eval(src, leaf);
      assert Eval(DepositOrMove(dst, src), leaf) == d[..0] + s + d[|s|..];
    }
  }

  // ---------------------------------------------------------------------
  // Emission.

  datatype Assignment = Assignment(dst: Expr, src: Expr)

  /** The rewriter's output: the assignments emitted so far, in order. */
  class Emitter {
    var instrs: seq<Assignment>

    constructor ()
      ensures instrs == []
    {
      instrs := [];
    }

    method Assign(dst: Expr, src: Expr)
      modifies this
      ensures instrs == old(instrs) + [Assignment(dst, src)]
    {
      instrs := instrs + [Assignment(dst, src)];
    }
  }

  /**
   * The floating point part of the RISC-V rewriter. Each rewrite takes the
   * already decoded operands (destination first) and appends to `m`.
   */
  class FpuRewriter {
    const m: Emitter

    constructor (m: Emitter)
      ensures this.m == m
    {
      this.m := m;
    }

    /** Emits exactly one assignment to `dst`: a deposit at bit 0 when `dst` is wider, else a move. */
    method MaybeDpb(dst: Expr, src: Expr)
      modifies m
      ensures m.instrs == old(m.instrs) + [Assignment(dst, DepositOrMove(dst, src))]
    {
      if BitSize(dst) > BitSize(src) {
        m.Assign(dst, Deposit(dst, src, 0));
      } else {
        m.Assign(dst, src);
      }
    }

    /**
     * A conversion between floating point formats: the source is sliced to
     * `dtFrom` bits, converted to `dtTo` bits and boxed to the destination.
     */
    method RewriteFcvt(dtFrom: nat, dtTo: nat, dst: Expr, src: Expr)
      modifies m
      ensures m.instrs == old(m.instrs) + [Assignment(dst, MaybeNanBox(Conversion(MaybeSlice(src, dtFrom), dtFrom, dtTo), BitSize(dst)))]
      ensures BitSize(m.instrs[|m.instrs| - 1].src) == Max(dtTo, BitSize(dst))
    {
      var s := MaybeSlice(src, dtFrom);
      m.Assign(dst, MaybeNanBox(Conversion(s, dtFrom, dtTo), BitSize(dst)));
    }

    /**
     * A binary operation of width `dt`: both sources sliced to `dt` bits,
     * the result boxed to the destination.
     */
    method RewriteFBinOp(dt: nat, fn: string, dst: Expr, src1: Expr, src2: Expr)
      modifies m
      ensures m.instrs == old(m.instrs) + [Assignment(dst, MaybeNanBox(Binary(fn, MaybeSlice(src1, dt), MaybeSlice(src2, dt)), BitSize(dst)))]
      ensures BitSize(m.instrs[|m.instrs| - 1].src) == Max(Min(BitSize(src1), dt), BitSize(dst))
    {
      var s1 := MaybeSlice(src1, dt);
      var s2 := MaybeSlice(src2, dt);
      m.Assign(dst, MaybeNanBox(Binary(fn, s1, s2), BitSize(dst)));
    }

    /**
     * A bit move between integer and floating point registers. A source
     * wider than `dtFrom` is first sliced into the temporary `tmp` (of
     * `dtFrom` bits), which then stands for the source; the source is boxed
     * to the destination.
     */
    method RewriteFMove(dtFrom: nat, dtTo: nat, dst: Expr, src: Expr, tmp: Expr)
      requires tmp.Temporary? && BitSize(tmp) == dtFrom
      modifies m
      ensures BitSize(src) > dtFrom ==>
        m.instrs == old(m.instrs) + [Assignment(tmp, Slice(src, dtFrom)), Assignment(dst, MaybeNanBox(tmp, BitSize(dst)))]
      ensures BitSize(src) <= dtFrom ==>
        m.instrs == old(m.instrs) + [Assignment(dst, MaybeNanBox(src, BitSize(dst)))]
      ensures BitSize(m.instrs[|m.instrs| - 1].src) == Max(Min(BitSize(src), dtFrom), BitSize(dst))
    {
      var s := src;
      if BitSize(src) > dtFrom {
        m.Assign(tmp, Slice(src, dtFrom));
        s := tmp;
      }
      m.Assign(dst, MaybeNanBox(s, BitSize(dst)));
    }

    /** A negation of width `dt`: the source sliced to `dt` bits, the result boxed. */
    method RewriteFneg(dt: nat, dst: Expr, src: Expr)
      modifies m
      ensures m.instrs == old(m.instrs) + [Assignment(dst, MaybeNanBox(Negation(MaybeSlice(src, dt)), BitSize(dst)))]
      ensures BitSize(m.instrs[|m.instrs| - 1].src) == Max(Min(BitSize(src), dt), BitSize(dst))
    {
      var s := MaybeSlice(src, dt);
      m.Assign(dst, MaybeNanBox(Negation(s), BitSize(dst)));
    }
  }

  /**
   * The move delivers the source's low `dtFrom` bits to the destination:
   * given that the temporary holds what the first assignment stored in it,
   * the destination's low bits are the source's low `dtFrom` bits.
   */
  lemma FMoveDeliversLowBits(dtFrom: nat, dst: Expr, src: Expr, tmp: Expr, leaf: Expr -> seq<bool>)
    requires tmp.Temporary? && BitSize(tmp) == dtFrom
    requires BitSize(src) > dtFrom ==> Fit(leaf(tmp), dtFrom) == Eval(Slice(src, dtFrom), leaf)
    ensures var moved := if BitSize(src) > dtFrom then tmp else src;
      Eval(MaybeNanBox(moved, BitSize(dst)), leaf)[..Min(BitSize(src), dtFrom)] == Eval(src, leaf)[..Min(BitSize(src), dtFrom)]
  {
    var moved := if BitSize(src) > dtFrom then tmp else src;
    NanBoxValue(moved, BitSize(dst), leaf);
  }
}
