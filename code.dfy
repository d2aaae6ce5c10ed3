/**
 * The intermediate representation that the SSA state works on: storages,
 * identifiers, expressions, instructions, statements, blocks and the
 * procedure that owns them, together with the def/use collectors that the
 * SSA state consults.
 *
 * InstructionUseCollector and SsaDefinitionsCollector are not modelled;
 * in their place are the functions `UsesOf` and `DefinitionsOf` over a closed set of instruction kinds. An instruction of
 * any other kind is represented by `Other`, which carries the identifiers it
 * defines and the identifiers it uses.
 */
module Code {
  import opened Wrappers

  /** A location a value can live in. Identity is structural. */
  datatype Storage =
    | Register(number: nat)
    | StackSlot(offset: int)
    | FlagGroup(register: nat, flags: nat)
    | SequenceStorage(elements: seq<Storage>)

  /** One SSA version of a variable: a name bound to a storage. */
  datatype Identifier = Identifier(name: string, storage: Storage)

  /** Expressions, reduced to what the def/use bookkeeping needs. */
  datatype Expression =
    | Id(id: Identifier)
    | Constant(value: int)
    | Unary(operand: Expression)
    | Binary(left: Expression, right: Expression)

  /** One argument of a phi function: the predecessor block it flows from and its value. */
  datatype PhiArgument = PhiArgument(block: Block, value: Expression)

  /** The instruction kinds the SSA state distinguishes. */
  datatype Instruction =
    | DefInstruction(defined: Identifier)
    | AliasAssignment(dst: Identifier, src: Expression)
    | PhiAssignment(dst: Identifier, arguments: seq<PhiArgument>)
    | UseInstruction(expression: Expression)
    | Other(defines: set<Identifier>, uses: multiset<Identifier>)

  /** A (storage, value) pair, as passed into a block along one edge. */
  datatype CallBinding = CallBinding(storage: Storage, expression: Expression)

  /** Every identifier occurrence in `e`, counted with multiplicity. */
  function ExpressionUses(e: Expression): (m: multiset<Identifier>)
    ensures e.Id? ==> m == multiset{e.id}
    ensures e.Constant? ==> m == multiset{}
  {
    match e
    case Id(id) => multiset{id}
    case Constant(_) => multiset{}
    case Unary(x) => ExpressionUses(x)
    case Binary(l, r) => ExpressionUses(l) + ExpressionUses(r)
  }

  /** The identifiers used by the arguments of a phi function. */
  function ArgumentUses(args: seq<PhiArgument>): multiset<Identifier>
  {
    if args == [] then multiset{} else ArgumentUses(args[..|args| - 1]) + ExpressionUses(args[|args| - 1].value)
  }

  /** The use collector: each identifier an instruction reads, with its number of occurrences. */
  function UsesOf(instr: Instruction): multiset<Identifier>
  {
    match instr
    case DefInstruction(_) => multiset{}
    case AliasAssignment(_, src) => ExpressionUses(src)
    case PhiAssignment(_, args) => ArgumentUses(args)
    case UseInstruction(e) => ExpressionUses(e)
    case Other(_, uses) => uses
  }

  /** The definitions collector: the identifiers an instruction defines. */
  function DefinitionsOf(instr: Instruction): set<Identifier>
  {
    match instr
    case DefInstruction(id) => {id}
    case AliasAssignment(dst, _) => {dst}
    case PhiAssignment(dst, _) => {dst}
    case UseInstruction(_) => {}
    case Other(defs, _) => defs
  }

  /**
   * The use collector in the form the validator compares: a dictionary from
   * each used identifier to its (positive) number of occurrences.
   */
  function UseCounts(instr: Instruction): (counts: map<Identifier, nat>)
    ensures forall id :: id in counts <==> id in UsesOf(instr)
    ensures forall id :: id in counts ==> counts[id] == UsesOf(instr)[id] > 0
  {
    var m := UsesOf(instr);
    map id | id in m :: m[id]
  }

  /** An address-tagged instruction living in one block's statement list. */
  class Statement {
    const address: nat
    const instruction: Instruction
    const block: Block

    constructor (address: nat, instruction: Instruction, block: Block)
      ensures this.address == address && this.instruction == instruction && this.block == block
    {
      this.address := address;
      this.instruction := instruction;
      this.block := block;
    }
  }

  /** A basic block: an ordered, mutable statement list and its predecessors. */
  class Block {
    const address: nat
    var statements: seq<Statement>
    var pred: seq<Block>

    constructor (address: nat)
      ensures this.address == address && statements == [] && pred == []
    {
      this.address := address;
      statements := [];
      pred := [];
    }
  }

  /** A procedure: its entry block and all of its blocks, in order. */
  class Procedure {
    const name: string
    const entryBlock: Block
    const blocks: seq<Block>

    constructor (name: string, entryBlock: Block, blocks: seq<Block>)
      ensures this.name == name && this.entryBlock == entryBlock && this.blocks == blocks
    {
      this.name := name;
      this.entryBlock := entryBlock;
      this.blocks := blocks;
    }

    /** Every statement of the procedure, block by block. */
    function Statements(): seq<Statement>
      reads blocks
    {
      StatementsOf(blocks)
    }
  }

  function StatementsOf(bs: seq<Block>): (s: seq<Statement>)
    reads bs
    ensures forall i, k :: 0 <= i < |bs| && 0 <= k < |bs[i].statements| ==> bs[i].statements[k] in s
    ensures forall k :: 0 <= k < |s| ==> exists i :: 0 <= i < |bs| && s[k] in bs[i].statements
  {
    if bs == [] then [] else bs[0].statements + StatementsOf(bs[1..])
  }

  /** A block's list holds each statement once, and only statements that name it as their block. */
  ghost predicate OwnsStatements(b: Block)
    reads b
  {
    && Distinct(b.statements)
    && forall k :: 0 <= k < |b.statements| ==> b.statements[k].block == b
  }

  /** The shape the SSA state relies on: the entry block is one of the blocks, no block is listed twice. */
  ghost predicate WellFormed(p: Procedure)
    reads p.blocks
  {
    && p.entryBlock in p.blocks
    && Distinct(p.blocks)
    && forall i :: 0 <= i < |p.blocks| ==> OwnsStatements(p.blocks[i])
  }

  /** In a well-formed procedure no statement is listed twice, and each lies in its own block. */
  lemma {:induction false} StatementsOfDistinct(bs: seq<Block>)
    requires Distinct(bs)
    requires forall i :: 0 <= i < |bs| ==> OwnsStatements(bs[i])
    ensures Distinct(StatementsOf(bs))
    ensures forall k :: 0 <= k < |StatementsOf(bs)| ==> StatementsOf(bs)[k].block in bs
  {
    if bs != [] {
      StatementsOfDistinct(bs[1..]);
      var head, tail := bs[0].statements, StatementsOf(bs[1..]);
      assert StatementsOf(bs) == head + tail;
      assert OwnsStatements(bs[0]);
      forall k | 0 <= k < |tail| ensures tail[k] !in head {
        assert tail[k].block in bs[1..];
        assert tail[k].block != bs[0];
      }
    }
  }

  // ---------------------------------------------------------------------
  // Sequence helpers mirroring the List<T> operations Reko calls.

  predicate Distinct<T(==)>(s: seq<T>)
  {
    forall i, j :: 0 <= i < j < |s| ==> s[i] != s[j]
  }

  /** The elements of a sequence, as a set. */
  function Elements<T>(s: seq<T>): set<T>
  {
    set x | x in s
  }

  /** The elements of a sequence are none exactly when the sequence is empty. */
  lemma ElementsEmpty<T>(s: seq<T>)
    ensures Elements(s) == {} <==> s == []
  {
    if s != [] {
      assert s[0] in Elements(s);
    }
  }

  lemma ElementsConcat<T>(a: seq<T>, b: seq<T>)
    ensures Elements(a + b) == Elements(a) + Elements(b)
  {
    assert forall x :: x in a + b <==> x in a || x in b;
  }

  /** Joining two repetition-free sequences with no common element gives one, with both element sets. */
  lemma DistinctConcat<T>(a: seq<T>, b: seq<T>)
    requires Distinct(a) && Distinct(b)
    requires Elements(a) !! Elements(b)
    ensures Distinct(a + b) && Elements(a + b) == Elements(a) + Elements(b)
  {
    var c := a + b;
    forall i, j | 0 <= i < j < |c| ensures c[i] != c[j] {
      if j >= |a| && i < |a| {
        assert c[i] in Elements(a) && c[j] in Elements(b);
      }
    }
  }

  /** List.IndexOf: the first index of `x` in `s`, or -1 when it is absent. */
  function IndexOf<T(==)>(s: seq<T>, x: T): (i: int)
    ensures -1 <= i < |s|
    ensures i == -1 <==> x !in s
    ensures 0 <= i ==> s[i] == x && x !in s[..i]
  {
    if s == [] then -1
    else if s[0] == x then 0
    else
      var k := IndexOf(s[1..], x);
      if k == -1 then -1
      else
        assert s[..k + 1] == [s[0]] + s[1..][..k];
        k + 1
  }

  /** List.Insert: `x` placed before index `pos`. */
  function InsertAt<T>(s: seq<T>, pos: nat, x: T): (r: seq<T>)
    requires pos <= |s|
    ensures |r| == |s| + 1 && r[pos] == x
    ensures forall k :: 0 <= k < pos ==> r[k] == s[k]
    ensures forall k :: pos < k < |r| ==> r[k] == s[k - 1]
  {
    s[..pos] + [x] + s[pos..]
  }

  /** List.Remove: the first occurrence of `x` taken out, or `s` unchanged when absent. */
  function RemoveFirst<T(==)>(s: seq<T>, x: T): (r: seq<T>)
    ensures x in s ==> |r| == |s| - 1 && multiset(r) == multiset(s) - multiset{x}
    ensures x !in s ==> r == s
  {
    if s == [] then []
    else
      assert s == [s[0]] + s[1..];
      if s[0] == x then s[1..] else [s[0]] + RemoveFirst(s[1..], x)
  }

  /** It is the first occurrence that goes, and the other elements keep their order. */
  lemma {:induction false} RemoveFirstRemovesFirst<T>(s: seq<T>, x: T)
    requires x in s
    ensures RemoveFirst(s, x) == s[..IndexOf(s, x)] + s[IndexOf(s, x) + 1..]
  {
    if s[0] == x {
      assert s[..0] == [];
    } else {
      var t := s[1..];
      assert x in t by { assert s == [s[0]] + t; }
      RemoveFirstRemovesFirst(t, x);
      SplitAfterHead(s, IndexOf(t, x));
    }
  }

  lemma SplitAfterHead<T>(s: seq<T>, i: nat)
    requires i + 1 < |s|
    ensures [s[0]] + (s[1..][..i] + s[1..][i + 1..]) == s[..i + 1] + s[i + 2..]
  {
    assert s[..i + 1] == [s[0]] + s[1..][..i];
    assert s[i + 2..] == s[1..][i + 1..];
  }

  lemma {:induction false} RemoveFirstSubsequence<T>(s: seq<T>, x: T)
    ensures forall y :: y in RemoveFirst(s, x) ==> y in s
    ensures Distinct(s) ==> Distinct(RemoveFirst(s, x)) && x !in RemoveFirst(s, x)
  {
    if s != [] && s[0] != x {
      RemoveFirstSubsequence(s[1..], x);
      var r := RemoveFirst(s, x);
      assert r == [s[0]] + RemoveFirst(s[1..], x);
      if Distinct(s) {
        assert s[0] !in s[1..];
      }
    }
  }

  lemma InsertKeepsDistinct<T>(s: seq<T>, pos: nat, x: T)
    requires pos <= |s| && Distinct(s) && x !in s
    ensures Distinct(InsertAt(s, pos, x))
    ensures forall y :: y in InsertAt(s, pos, x) <==> y in s || y == x
  {
    var r := InsertAt(s, pos, x);
    assert r == s[..pos] + [x] + s[pos..];
    forall y ensures y in r <==> y in s || y == x {
      assert s == s[..pos] + s[pos..];
    }
  }
}
