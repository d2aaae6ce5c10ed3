/**
 * The SSA state of one procedure: a table from each identifier to its SSA
 * record (one defining statement, a list of using statements) and the
 * operations that edit the procedure's statement lists and the records
 * together, the validator that checks the records against the statements,
 * and the query that transposes phi arguments per predecessor.
 */
module Analysis {
  import opened Wrappers
  import opened Code

  /** The SSA record of one identifier: its defining statement and its uses. */
  class SsaIdentifier {
    const identifier: Identifier
    var defStatement: Statement?
    var uses: seq<Statement>

    constructor (identifier: Identifier, defStatement: Statement?)
      ensures this.identifier == identifier && this.defStatement == defStatement && uses == []
    {
      this.identifier := identifier;
      this.defStatement := defStatement;
      uses := [];
    }
  }

  /** The inconsistencies the validator reports, one constructor per message Reko prints. */
  datatype ValidationError =
      /** a record lists a use statement that is not in the procedure */
    | DeadUse(id: Identifier, use: Statement)
      /** the records list `stm` as a use of `id` more often than `stm` uses it */
    | IncorrectUses(id: Identifier, stm: Statement)
      /** `stm` uses `id` more often than the records list it */
    | MissingUses(id: Identifier, stm: Statement)
      /** `stm` defines `id`, which the earlier statement `first` already defines */
    | MultipleDefinitions(id: Identifier, stm: Statement, first: Statement)
      /** the record of `id` names `recorded` as its definition, the statements say `actual` */
    | IncorrectDefinition(id: Identifier, recorded: Statement?, actual: Statement?)
      /** `def` defines `id`, which has no record */
    | MissingIdentifier(id: Identifier, def: Statement)

  /** The index of the last DefInstruction in `stmts`, or -1 when there is none. */
  ghost predicate IsLastDefPosition(stmts: seq<Statement>, i: int)
  {
    && -1 <= i < |stmts|
    && (0 <= i ==> stmts[i].instruction.DefInstruction?)
    && forall j :: i < j < |stmts| ==> !stmts[j].instruction.DefInstruction?
  }

  /** LastDefPosition: scans the list backwards for the last DefInstruction. */
  method LastDefPosition(stmts: seq<Statement>) returns (i: int)
    ensures IsLastDefPosition(stmts, i)
  {
    i := |stmts| - 1;
    while i >= 0
      invariant -1 <= i < |stmts|
      invariant forall j :: i < j < |stmts| ==> !stmts[j].instruction.DefInstruction?
    {
      if stmts[i].instruction.DefInstruction? {
        return;
      }
      i := i - 1;
    }
  }

  /** The defining instructions of a list form a prologue: all of them come before all others. */
  ghost predicate DefPrologue(stmts: seq<Statement>)
  {
    forall i, j :: 0 <= i < j < |stmts| && stmts[j].instruction.DefInstruction? ==> stmts[i].instruction.DefInstruction?
  }

  /**
   * Inserting a DefInstruction right after the last one keeps a prologue of
   * definitions a prologue, and puts the new one after every definition that
   * was there and before every other statement.
   */
  lemma {:induction false} EntryInsertionKeepsPrologue(stmts: seq<Statement>, pos: nat, s: Statement)
    requires pos <= |stmts| && IsLastDefPosition(stmts, pos - 1)
    requires s.instruction.DefInstruction? && DefPrologue(stmts)
    ensures DefPrologue(InsertAt(stmts, pos, s))
    ensures forall j :: 0 <= j < pos ==> stmts[j].instruction.DefInstruction?
    ensures forall j :: pos <= j < |stmts| ==> !stmts[j].instruction.DefInstruction?
  {
    var r := InsertAt(stmts, pos, s);
    forall j | 0 <= j < pos ensures stmts[j].instruction.DefInstruction? {
      assert j < pos - 1 ==> stmts[pos - 1].instruction.DefInstruction?;
    }
    forall i, j | 0 <= i < j < |r| && r[j].instruction.DefInstruction?
      ensures r[i].instruction.DefInstruction?
    {
    }
  }

  /**
   * The index of the last statement of the run of AliasAssignments that
   * directly follows index `i` (`i` itself when there is none).
   */
  function AliasRunEnd(stmts: seq<Statement>, i: int): (j: int)
    requires -1 <= i < |stmts|
    ensures i <= j < |stmts|
    ensures forall k :: i < k <= j ==> stmts[k].instruction.AliasAssignment?
    ensures j + 1 == |stmts| || !stmts[j + 1].instruction.AliasAssignment?
    decreases |stmts| - i
  {
    if i < |stmts| - 1 && stmts[i + 1].instruction.AliasAssignment? then AliasRunEnd(stmts, i + 1) else i
  }

  /** `uses` with `k` more copies of `stm` at the end. */
  function AddCopies(uses: seq<Statement>, stm: Statement, k: nat): (r: seq<Statement>)
    ensures multiset(r) == multiset(uses)[stm := multiset(uses)[stm] + k]
  {
    if k == 0 then uses
    else
      var r' := AddCopies(uses, stm, k - 1);
      assert multiset(r' + [stm]) == multiset(r') + multiset{stm};
      r' + [stm]
  }

  /** `uses` with its first `k` copies of `stm` taken out (fewer when it holds fewer). */
  function RemoveCopies(uses: seq<Statement>, stm: Statement, k: nat): (r: seq<Statement>)
    ensures multiset(r) == multiset(uses)[stm := if multiset(uses)[stm] < k then 0 else multiset(uses)[stm] - k]
  {
    if k == 0 || uses == [] then uses
    else
      assert uses == [uses[0]] + uses[1..];
      if uses[0] == stm then RemoveCopies(uses[1..], stm, k - 1)
      else [uses[0]] + RemoveCopies(uses[1..], stm, k)
  }

  /** `uses` with every copy of `stm` taken out. */
  function RemoveAll(uses: seq<Statement>, stm: Statement): (r: seq<Statement>)
    ensures multiset(r) == multiset(uses)[stm := 0]
  {
    if uses == [] then []
    else
      assert uses == [uses[0]] + uses[1..];
      if uses[0] == stm then RemoveAll(uses[1..], stm)
      else [uses[0]] + RemoveAll(uses[1..], stm)
  }

  /** Adding the uses of an expression and then removing them restores the use counts. */
  lemma AddThenRemoveRestores(uses: seq<Statement>, stm: Statement, k: nat)
    ensures multiset(RemoveCopies(AddCopies(uses, stm, k), stm, k)) == multiset(uses)
  {
  }

  // ---------------------------------------------------------------------
  // Specification of the validator, over values.

  /** A dictionary lookup where an absent key counts as 0. */
  function CountOrZero(m: map<Identifier, nat>, id: Identifier): nat
  {
    if id in m then m[id] else 0
  }

  /** The identifiers whose stored count exceeds the actual one (absent counting as 0). */
  ghost function IncorrectUseErrors(stm: Statement, stored: map<Identifier, nat>, actual: map<Identifier, nat>): (errs: set<ValidationError>)
    ensures forall e :: e in errs ==> e.IncorrectUses? && e.stm == stm
  {
    set id | id in stored && (id !in actual || actual[id] < stored[id]) :: IncorrectUses(id, stm)
  }

  /** The identifiers whose actual count exceeds the stored one (absent counting as 0). */
  ghost function MissingUseErrors(stm: Statement, stored: map<Identifier, nat>, actual: map<Identifier, nat>): (errs: set<ValidationError>)
    ensures forall e :: e in errs ==> e.MissingUses? && e.stm == stm
  {
    set id | id in actual && (id !in stored || stored[id] < actual[id]) :: MissingUses(id, stm)
  }

  /** The use-count errors for one statement: stored counts against actual counts. */
  ghost function CountMismatches(stm: Statement, stored: map<Identifier, nat>, actual: map<Identifier, nat>): (errs: set<ValidationError>)
    ensures forall e :: e in errs ==> (e.IncorrectUses? || e.MissingUses?) && e.stm == stm
  {
    IncorrectUseErrors(stm, stored, actual) + MissingUseErrors(stm, stored, actual)
  }

  /**
   * For dictionaries of positive counts, each identifier whose counts differ
   * (absent counting as 0) gets exactly one error, of the kind the direction
   * of the difference says, and no other identifier gets one.
   */
  lemma CountMismatchesExact(stm: Statement, stored: map<Identifier, nat>, actual: map<Identifier, nat>, id: Identifier)
    requires forall x :: x in stored ==> stored[x] > 0
    requires forall x :: x in actual ==> actual[x] > 0
    ensures IncorrectUses(id, stm) in CountMismatches(stm, stored, actual) <==> CountOrZero(stored, id) > CountOrZero(actual, id)
    ensures MissingUses(id, stm) in CountMismatches(stm, stored, actual) <==> CountOrZero(actual, id) > CountOrZero(stored, id)
  {
  }

  /** The error set is empty exactly when the two dictionaries agree everywhere. */
  lemma {:induction false} CountMismatchesEmptyIff(stm: Statement, stored: map<Identifier, nat>, actual: map<Identifier, nat>)
    requires forall x :: x in stored ==> stored[x] > 0
    requires forall x :: x in actual ==> actual[x] > 0
    ensures CountMismatches(stm, stored, actual) == {} <==> forall id :: CountOrZero(stored, id) == CountOrZero(actual, id)
  {
    if CountMismatches(stm, stored, actual) == {} {
      forall id ensures CountOrZero(stored, id) == CountOrZero(actual, id) {
        CountMismatchesExact(stm, stored, actual, id);
      }
    } else {
      var e :| e in CountMismatches(stm, stored, actual);
      CountMismatchesExact(stm, stored, actual, e.id);
    }
  }

  /** The two loops of ValidateUses for one statement. */
  method ReportCountMismatches(stm: Statement, stored: map<Identifier, nat>, actual: map<Identifier, nat>)
    returns (errors: seq<ValidationError>)
    ensures Distinct(errors) && Elements(errors) == CountMismatches(stm, stored, actual)
  {
    var incorrect := ReportIncorrectUses(stm, stored, actual);
    var missing := ReportMissingUses(stm, stored, actual);
    DistinctConcat(incorrect, missing);
    errors := incorrect + missing;
  }

  /** The first loop of ValidateUses for one statement: over the stored counts. */
  method ReportIncorrectUses(stm: Statement, stored: map<Identifier, nat>, actual: map<Identifier, nat>)
    returns (errors: seq<ValidationError>)
    ensures Distinct(errors) && Elements(errors) == IncorrectUseErrors(stm, stored, actual)
  {
    errors := [];
    var keys := stored.Keys;
    while keys != {}
      invariant keys <= stored.Keys
      invariant Distinct(errors)
      invariant Elements(errors) == set id | id in stored.Keys - keys && (id !in actual || actual[id] < stored[id]) :: IncorrectUses(id, stm)
      decreases keys
    {
      var id :| id in keys;
      if id !in actual || actual[id] < stored[id] {
        assert IncorrectUses(id, stm) !in Elements(errors);
        DistinctConcat(errors, [IncorrectUses(id, stm)]);
        errors := errors + [IncorrectUses(id, stm)];
      }
      keys := keys - {id};
    }
  }

  /** The second loop of ValidateUses for one statement: over the actual counts. */
  method ReportMissingUses(stm: Statement, stored: map<Identifier, nat>, actual: map<Identifier, nat>)
    returns (errors: seq<ValidationError>)
    ensures Distinct(errors) && Elements(errors) == MissingUseErrors(stm, stored, actual)
  {
    errors := [];
    var keys := actual.Keys;
    while keys != {}
      invariant keys <= actual.Keys
      invariant Distinct(errors)
      invariant Elements(errors) == set id | id in actual.Keys - keys && (id !in stored || stored[id] < actual[id]) :: MissingUses(id, stm)
      decreases keys
    {
      var id :| id in keys;
      if id !in stored || stored[id] < actual[id] {
        assert MissingUses(id, stm) !in Elements(errors);
        DistinctConcat(errors, [MissingUses(id, stm)]);
        errors := errors + [MissingUses(id, stm)];
      }
      keys := keys - {id};
    }
  }

  /** The first statement of `stmts` that defines each identifier: the validator's actualDefs. */
  ghost function FirstDefinitions(stmts: seq<Statement>): (first: map<Identifier, Statement>)
  {
    if stmts == [] then map[]
    else
      var pre := FirstDefinitions(stmts[..|stmts| - 1]);
      var s := stmts[|stmts| - 1];
      pre + map id | id in DefinitionsOf(s.instruction) && id !in pre :: s
  }

  /** `stmts[i]` defines `id`, and no statement before it does. */
  ghost predicate FirstDefiner(stmts: seq<Statement>, i: int, id: Identifier)
  {
    && 0 <= i < |stmts|
    && id in DefinitionsOf(stmts[i].instruction)
    && forall k :: 0 <= k < i ==> id !in DefinitionsOf(stmts[k].instruction)
  }

  /** Every entry of FirstDefinitions is a first definer. */
  lemma {:induction false} FirstDefinitionAt(stmts: seq<Statement>, id: Identifier) returns (i: int)
    requires id in FirstDefinitions(stmts)
    ensures FirstDefiner(stmts, i, id) && FirstDefinitions(stmts)[id] == stmts[i]
  {
    var pre := stmts[..|stmts| - 1];
    if id in FirstDefinitions(pre) {
      i := FirstDefinitionAt(pre, id);
      assert stmts[i] == pre[i];
      forall k | 0 <= k < i ensures id !in DefinitionsOf(stmts[k].instruction) {
        assert stmts[k] == pre[k];
      }
    } else {
      i := |stmts| - 1;
      forall k | 0 <= k < i ensures id !in DefinitionsOf(stmts[k].instruction) {
        assert stmts[k] == pre[k];
        DefinedHasFirstDefinition(pre, k, id);
      }
    }
  }

  /** Every identifier some statement defines has an entry in FirstDefinitions. */
  lemma {:induction false} DefinedHasFirstDefinition(stmts: seq<Statement>, k: int, id: Identifier)
    requires 0 <= k < |stmts|
    ensures id in DefinitionsOf(stmts[k].instruction) ==> id in FirstDefinitions(stmts)
  {
    var pre := stmts[..|stmts| - 1];
    if k < |stmts| - 1 {
      assert stmts[k] == pre[k];
      DefinedHasFirstDefinition(pre, k, id);
    }
  }

  /** An identifier no statement defines has no entry in FirstDefinitions. */
  lemma {:induction false} UndefinedHasNoFirstDefinition(stmts: seq<Statement>, id: Identifier)
    requires forall k :: 0 <= k < |stmts| ==> id !in DefinitionsOf(stmts[k].instruction)
    ensures id !in FirstDefinitions(stmts)
  {
    if stmts != [] {
      var pre := stmts[..|stmts| - 1];
      forall k | 0 <= k < |pre| ensures id !in DefinitionsOf(pre[k].instruction) {
        assert pre[k] == stmts[k];
      }
      UndefinedHasNoFirstDefinition(pre, id);
    }
  }

  /** Only one position can be the first definer of an identifier. */
  lemma FirstDefinerUnique(stmts: seq<Statement>, i: int, j: int, id: Identifier)
    requires FirstDefiner(stmts, i, id) && FirstDefiner(stmts, j, id)
    ensures i == j
  {
  }

  /** The multiple-definition errors: one per definer after the first, naming the first. */
  ghost function MultipleDefinitionErrors(stmts: seq<Statement>): (errs: set<ValidationError>)
    ensures forall e :: e in errs ==> e.MultipleDefinitions? && e.stm in stmts
  {
    if stmts == [] then {}
    else
      var pre := stmts[..|stmts| - 1];
      var first := FirstDefinitions(pre);
      var s := stmts[|stmts| - 1];
      MultipleDefinitionErrors(pre)
      + set id | id in DefinitionsOf(s.instruction) && id in first :: MultipleDefinitions(id, s, first[id])
  }

  /** No identifier is defined by two statements. */
  ghost predicate SingleDefiners(stmts: seq<Statement>)
  {
    forall i, j, id :: 0 <= i < j < |stmts| && id in DefinitionsOf(stmts[i].instruction) ==> id !in DefinitionsOf(stmts[j].instruction)
  }

  /** `stmts[j]` defines `id` again after its first definer `stmts[i]`. */
  ghost predicate Redefinition(stmts: seq<Statement>, i: int, j: int, id: Identifier, stm: Statement, first: Statement)
  {
    && 0 <= i < j < |stmts|
    && FirstDefiner(stmts, i, id) && stmts[i] == first
    && stmts[j] == stm && id in DefinitionsOf(stm.instruction)
  }

  /** Each multiple-definition error stands for a redefinition after the first definer. */
  lemma {:induction false} MultipleDefinitionErrorSound(stmts: seq<Statement>, id: Identifier, stm: Statement, first: Statement)
    requires MultipleDefinitions(id, stm, first) in MultipleDefinitionErrors(stmts)
    ensures exists i, j :: Redefinition(stmts, i, j, id, stm, first)
  {
    var pre := stmts[..|stmts| - 1];
    var last := |stmts| - 1;
    var s := stmts[last];
    if MultipleDefinitions(id, stm, first) in MultipleDefinitionErrors(pre) {
      MultipleDefinitionErrorSound(pre, id, stm, first);
      var i, j :| Redefinition(pre, i, j, id, stm, first);
      assert Redefinition(stmts, i, j, id, stm, first);
    } else {
      var added := set x | x in DefinitionsOf(s.instruction) && x in FirstDefinitions(pre) :: MultipleDefinitions(x, s, FirstDefinitions(pre)[x]);
      assert MultipleDefinitions(id, stm, first) in added;
      assert id in FirstDefinitions(pre) && stm == s && first == FirstDefinitions(pre)[id];
      var i := FirstDefinitionAt(pre, id);
      assert Redefinition(stmts, i, last, id, stm, first);
    }
  }

  /** Each redefinition after the first definer is reported, naming the first definer. */
  lemma {:induction false} MultipleDefinitionErrorComplete(stmts: seq<Statement>, i: int, j: int, id: Identifier, stm: Statement, first: Statement)
    requires Redefinition(stmts, i, j, id, stm, first)
    ensures MultipleDefinitions(id, stm, first) in MultipleDefinitionErrors(stmts)
  {
    var pre := stmts[..|stmts| - 1];
    var last := |stmts| - 1;
    if j < last {
      assert Redefinition(pre, i, j, id, stm, first);
      MultipleDefinitionErrorComplete(pre, i, j, id, stm, first);
    } else {
      assert stmts[i] == pre[i];
      DefinedHasFirstDefinition(pre, i, id);
      var i' := FirstDefinitionAt(pre, id);
      assert FirstDefiner(pre, i, id);
      FirstDefinerUnique(pre, i, i', id);
      var firsts := FirstDefinitions(pre);
      assert firsts[id] == first && stm == stmts[last];
      var added := set x | x in DefinitionsOf(stm.instruction) && x in firsts :: MultipleDefinitions(x, stm, firsts[x]);
      assert MultipleDefinitions(id, stm, first) in added;
      assert MultipleDefinitionErrors(stmts) == MultipleDefinitionErrors(pre) + added;
    }
  }

  /**
   * A multiple-definition error is reported exactly for a statement that
   * defines an identifier some earlier statement defines, and it names the
   * first of those earlier statements.
   */
  lemma MultipleDefinitionErrorsCharacterized(stmts: seq<Statement>, id: Identifier, stm: Statement, first: Statement)
    ensures MultipleDefinitions(id, stm, first) in MultipleDefinitionErrors(stmts) <==>
      exists i, j :: Redefinition(stmts, i, j, id, stm, first)
  {
    if MultipleDefinitions(id, stm, first) in MultipleDefinitionErrors(stmts) {
      MultipleDefinitionErrorSound(stmts, id, stm, first);
    }
    if exists i, j :: Redefinition(stmts, i, j, id, stm, first) {
      var i, j :| Redefinition(stmts, i, j, id, stm, first);
      MultipleDefinitionErrorComplete(stmts, i, j, id, stm, first);
    }
  }

  /** There are no multiple-definition errors exactly when no identifier has two definers. */
  lemma {:induction false} MultipleDefinitionErrorsEmptyIff(stmts: seq<Statement>)
    ensures MultipleDefinitionErrors(stmts) == {} <==> SingleDefiners(stmts)
  {
    if stmts != [] {
      var pre := stmts[..|stmts| - 1];
      var last := |stmts| - 1;
      var s := stmts[last];
      MultipleDefinitionErrorsEmptyIff(pre);
      var added := set x | x in DefinitionsOf(s.instruction) && x in FirstDefinitions(pre) :: MultipleDefinitions(x, s, FirstDefinitions(pre)[x]);
      assert MultipleDefinitionErrors(stmts) == MultipleDefinitionErrors(pre) + added;
      if SingleDefiners(stmts) {
        forall i, j, id | 0 <= i < j < |pre| && id in DefinitionsOf(pre[i].instruction)
          ensures id !in DefinitionsOf(pre[j].instruction)
        {
          assert pre[i] == stmts[i] && pre[j] == stmts[j];
        }
        forall id | id in DefinitionsOf(s.instruction) ensures id !in FirstDefinitions(pre) {
          forall i | 0 <= i < |pre| ensures id !in DefinitionsOf(pre[i].instruction) {
            assert pre[i] == stmts[i];
          }
          UndefinedHasNoFirstDefinition(pre, id);
        }
        assert added == {};
      }
      if MultipleDefinitionErrors(stmts) == {} {
        forall i, j, id | 0 <= i < j < |stmts| && id in DefinitionsOf(stmts[i].instruction)
          ensures id !in DefinitionsOf(stmts[j].instruction)
        {
          assert stmts[i] == pre[i];
          if j < last {
            assert stmts[j] == pre[j];
          } else {
            DefinedHasFirstDefinition(pre, i, id);
            var err := MultipleDefinitions(id, s, FirstDefinitions(pre)[id]);
            assert err !in added;
          }
        }
      }
    }
  }

  /** A record's definition, or none, as the statements determine it. */
  ghost predicate DefinedBy(stmts: seq<Statement>, id: Identifier, d: Statement?)
  {
    if d == null then forall k :: 0 <= k < |stmts| ==> id !in DefinitionsOf(stmts[k].instruction)
    else d in stmts && id in DefinitionsOf(d.instruction)
  }

  /** The entry of `first` for `id`, or null: the validator's `actualDef`. */
  function Lookup(first: map<Identifier, Statement>, id: Identifier): Statement?
  {
    if id in first then first[id] else null
  }

  /** With single definers, the first definition of `id` is the only statement `d` with DefinedBy. */
  lemma LookupIsDefinedBy(stmts: seq<Statement>, id: Identifier, d: Statement?)
    requires SingleDefiners(stmts)
    ensures DefinedBy(stmts, id, d) <==> d == Lookup(FirstDefinitions(stmts), id)
  {
    var first := FirstDefinitions(stmts);
    if id in first {
      var i := FirstDefinitionAt(stmts, id);
      if d != null && DefinedBy(stmts, id, d) {
        var j :| 0 <= j < |stmts| && stmts[j] == d;
        assert i == j;
      }
    } else {
      forall k | 0 <= k < |stmts| ensures id !in DefinitionsOf(stmts[k].instruction) {
        DefinedHasFirstDefinition(stmts, k, id);
      }
    }
  }

  // ---------------------------------------------------------------------
  // Specification of use validation, over a snapshot of the table: each
  // identifier's recorded uses.

  /** The number of times the record of `id` lists `stm` among its uses (0 without a record). */
  function RecordedUses(table: map<Identifier, seq<Statement>>, id: Identifier, stm: Statement): nat
  {
    if id in table then multiset(table[id])[stm] else 0
  }

  /** The stored counts of `stm`: each identifier whose record lists it, with how often. */
  function StoredCounts(table: map<Identifier, seq<Statement>>, stm: Statement): (counts: map<Identifier, nat>)
    ensures forall id :: id in counts <==> id in table && stm in table[id]
    ensures forall id :: id in counts ==> counts[id] > 0
    ensures forall id :: CountOrZero(counts, id) == RecordedUses(table, id, stm)
  {
    map id | id in table && stm in table[id] :: multiset(table[id])[stm]
  }

  /** The dead-use errors: a use recorded for a statement that is not in the procedure. */
  ghost function DeadUseErrors(table: map<Identifier, seq<Statement>>, stmts: seq<Statement>): (errs: set<ValidationError>)
    ensures forall e :: e in errs ==> e.DeadUse?
  {
    set id, u | id in table && u in table[id] && u !in stmts :: DeadUse(id, u)
  }

  /** The use-count errors of the statements `stmts`. */
  ghost function CountErrors(table: map<Identifier, seq<Statement>>, stmts: seq<Statement>): (errs: set<ValidationError>)
    ensures forall e :: e in errs ==> (e.IncorrectUses? || e.MissingUses?) && e.stm in stmts
  {
    if stmts == [] then {}
    else
      var stm := stmts[|stmts| - 1];
      CountErrors(table, stmts[..|stmts| - 1]) + CountMismatches(stm, StoredCounts(table, stm), UseCounts(stm.instruction))
  }

  /** Everything ValidateUses reports. */
  ghost function UseErrors(table: map<Identifier, seq<Statement>>, stmts: seq<Statement>): set<ValidationError>
  {
    DeadUseErrors(table, stmts) + CountErrors(table, stmts)
  }

  /** The recorded counts of `stm` agree with its actual uses, for every identifier. */
  ghost predicate CountsAgree(table: map<Identifier, seq<Statement>>, stm: Statement)
  {
    forall id :: RecordedUses(table, id, stm) == UsesOf(stm.instruction)[id]
  }

  /**
   * The recorded uses are the actual ones: every recorded use is one of
   * `stmts`, and each of `stmts` is listed in the record of each identifier
   * it uses exactly as often as it uses it (and in no other record).
   */
  ghost predicate UsesConsistent(table: map<Identifier, seq<Statement>>, stmts: seq<Statement>)
  {
    && (forall id, u :: id in table && u in table[id] ==> u in stmts)
    && AllCountsAgree(table, stmts)
  }

  /** One statement yields no use-count error exactly when its counts agree. */
  lemma StatementCountErrorsEmptyIff(table: map<Identifier, seq<Statement>>, stm: Statement)
    ensures CountMismatches(stm, StoredCounts(table, stm), UseCounts(stm.instruction)) == {} <==> CountsAgree(table, stm)
  {
    var stored, actual := StoredCounts(table, stm), UseCounts(stm.instruction);
    CountMismatchesEmptyIff(stm, stored, actual);
    assert forall id :: CountOrZero(actual, id) == UsesOf(stm.instruction)[id];
  }

  /** Every statement of `stmts` has agreeing counts. */
  ghost predicate AllCountsAgree(table: map<Identifier, seq<Statement>>, stmts: seq<Statement>)
  {
    forall k :: 0 <= k < |stmts| ==> CountsAgree(table, stmts[k])
  }

  lemma AllCountsAgreeSnoc(table: map<Identifier, seq<Statement>>, stmts: seq<Statement>)
    requires stmts != []
    ensures AllCountsAgree(table, stmts) <==>
      AllCountsAgree(table, stmts[..|stmts| - 1]) && CountsAgree(table, stmts[|stmts| - 1])
  {
    var pre := stmts[..|stmts| - 1];
    assert forall k :: 0 <= k < |pre| ==> pre[k] == stmts[k];
  }

  /** The use-count errors of `stmts` vanish exactly when each statement's counts agree. */
  lemma {:induction false} CountErrorsEmptyIff(table: map<Identifier, seq<Statement>>, stmts: seq<Statement>)
    ensures CountErrors(table, stmts) == {} <==> AllCountsAgree(table, stmts)
  {
    if stmts != [] {
      var stm := stmts[|stmts| - 1];
      CountErrorsEmptyIff(table, stmts[..|stmts| - 1]);
      StatementCountErrorsEmptyIff(table, stm);
      AllCountsAgreeSnoc(table, stmts);
    }
  }

  /** One more statement adds its own count errors, none of which was there before. */
  lemma CountErrorsSnoc(table: map<Identifier, seq<Statement>>, stmts: seq<Statement>, k: int)
    requires 0 <= k < |stmts| && Distinct(stmts)
    ensures CountErrors(table, stmts[..k + 1]) ==
      CountErrors(table, stmts[..k]) + CountMismatches(stmts[k], StoredCounts(table, stmts[k]), UseCounts(stmts[k].instruction))
    ensures forall e :: e in CountErrors(table, stmts[..k]) ==> e.stm != stmts[k]
  {
    assert stmts[..k + 1][..k] == stmts[..k];
  }

  /** ValidateUses reports nothing exactly when the recorded uses are consistent. */
  lemma UseErrorsEmptyIff(table: map<Identifier, seq<Statement>>, stmts: seq<Statement>)
    ensures UseErrors(table, stmts) == {} <==> UsesConsistent(table, stmts)
  {
    CountErrorsEmptyIff(table, stmts);
    if DeadUseErrors(table, stmts) == {} {
      forall id, u | id in table && u in table[id] ensures u in stmts {
        assert DeadUse(id, u) !in DeadUseErrors(table, stmts);
      }
    }
  }

  // ---------------------------------------------------------------------
  // PredecessorPhiIdentifiers.

  /** The phi assignments among `stmts`' instructions, in order. */
  function PhiAssignments(stmts: seq<Statement>): (phis: seq<Instruction>)
    ensures forall k :: 0 <= k < |phis| ==> phis[k].PhiAssignment?
  {
    if stmts == [] then []
    else (if stmts[0].instruction.PhiAssignment? then [stmts[0].instruction] else []) + PhiAssignments(stmts[1..])
  }

  /** The selection keeps statement order: the phis of a prefix come before those of the rest. */
  lemma {:induction false} PhiAssignmentsConcat(a: seq<Statement>, b: seq<Statement>)
    ensures PhiAssignments(a + b) == PhiAssignments(a) + PhiAssignments(b)
  {
    if a != [] {
      assert (a + b)[0] == a[0] && (a + b)[1..] == a[1..] + b;
      PhiAssignmentsConcat(a[1..], b);
    } else {
      assert a + b == b;
    }
  }

  /** The phi assignments kept are exactly the instructions of `stmts` that are phi assignments. */
  lemma {:induction false} PhiAssignmentsSelect(stmts: seq<Statement>, x: Instruction)
    ensures x in PhiAssignments(stmts) <==> x.PhiAssignment? && exists k :: 0 <= k < |stmts| && stmts[k].instruction == x
  {
    if stmts != [] {
      PhiAssignmentsSelect(stmts[1..], x);
      if exists k :: 0 <= k < |stmts| && stmts[k].instruction == x {
        var k :| 0 <= k < |stmts| && stmts[k].instruction == x;
        if k > 0 {
          assert stmts[1..][k - 1] == stmts[k];
        }
      }
      if exists k :: 0 <= k < |stmts| - 1 && stmts[1..][k].instruction == x {
        var k :| 0 <= k < |stmts| - 1 && stmts[1..][k].instruction == x;
        assert stmts[k + 1].instruction == x;
      }
    }
  }

  /** One phi's bindings: for each argument, the phi's destination storage and the argument's value. */
  function PhiRow(phi: Instruction): (row: seq<CallBinding>)
    requires phi.PhiAssignment?
    ensures |row| == |phi.arguments|
    ensures forall a :: 0 <= a < |row| ==> row[a] == CallBinding(phi.dst.storage, phi.arguments[a].value)
  {
    seq(|phi.arguments|, a requires 0 <= a < |phi.arguments| => CallBinding(phi.dst.storage, phi.arguments[a].value))
  }

  /** The length of the shortest row. */
  function MinLength<T>(rows: seq<seq<T>>): (n: nat)
    requires rows != []
    ensures forall k :: 0 <= k < |rows| ==> n <= |rows[k]|
    ensures exists k :: 0 <= k < |rows| && n == |rows[k]|
  {
    if |rows| == 1 then |rows[0]|
    else
      var m := MinLength(rows[1..]);
      assert forall k :: 1 <= k < |rows| ==> rows[k] == rows[1..][k - 1];
      if |rows[0]| <= m then |rows[0]| else m
  }

  /**
   * EnumerableEx.ZipMany followed by ToArray on each column: the p-th column
   * holds the p-th element of every row, and there are as many columns as
   * the shortest row is long (none when there are no rows).
   */
  function ZipMany<T>(rows: seq<seq<T>>): (cols: seq<seq<T>>)
    ensures rows == [] ==> cols == []
    ensures rows != [] ==> |cols| == MinLength(rows)
    ensures forall p :: 0 <= p < |cols| ==> |cols[p]| == |rows|
    ensures forall p, k :: 0 <= p < |cols| && 0 <= k < |rows| ==> p < |rows[k]| && cols[p][k] == rows[k][p]
  {
    if rows == [] then []
    else
      var n := MinLength(rows);
      seq(n, p requires 0 <= p < n => seq(|rows|, k requires 0 <= k < |rows| => rows[k][p]))
  }

  /** ZipMany yields at least `n` columns exactly when there are rows and every row has at least `n` elements. */
  lemma ZipManyLength<T>(rows: seq<seq<T>>, n: nat)
    ensures rows != [] ==> (|ZipMany(rows)| >= n <==> forall k :: 0 <= k < |rows| ==> |rows[k]| >= n)
  {
  }

  /** The stripes of the phi assignments: row k holds the bindings of the k-th phi. */
  function PhiRows(phis: seq<Instruction>): (rows: seq<seq<CallBinding>>)
    requires forall k :: 0 <= k < |phis| ==> phis[k].PhiAssignment?
    ensures |rows| == |phis|
    ensures forall k :: 0 <= k < |phis| ==> rows[k] == PhiRow(phis[k])
  {
    seq(|phis|, k requires 0 <= k < |phis| => PhiRow(phis[k]))
  }

  /** No stripe can be ripped: there is no phi, or some phi has no argument. */
  predicate NoStripes(phis: seq<Instruction>)
    requires forall k :: 0 <= k < |phis| ==> phis[k].PhiAssignment?
  {
    phis == [] || exists k :: 0 <= k < |phis| && |phis[k].arguments| == 0
  }

  /** Every phi has an argument for each of `n` predecessors. */
  predicate ArgumentsCover(phis: seq<Instruction>, n: nat)
    requires forall k :: 0 <= k < |phis| ==> phis[k].PhiAssignment?
  {
    forall k :: 0 <= k < |phis| ==> |phis[k].arguments| >= n
  }

  /**
   * The several-predecessor case of PredecessorPhiIdentifiers: the p-th
   * predecessor mapped to the p-th column of the phi stripes.
   */
  function PhiStripes(pred: seq<Block>, phis: seq<Instruction>): (r: Option<map<Block, seq<CallBinding>>>)
    requires forall k :: 0 <= k < |phis| ==> phis[k].PhiAssignment?
    ensures NoStripes(phis) ==> r == Some(map[])
    ensures !NoStripes(phis) ==> (r.Some? <==> Distinct(pred) && ArgumentsCover(phis, |pred|))
    ensures !NoStripes(phis) && r.Some? ==> r.value.Keys == Elements(pred)
  {
    var rows := PhiRows(phis);
    var arrs := ZipMany(rows);
    ZipManyLength(rows, 1);
    ZipManyLength(rows, |pred|);
    if |arrs| == 0 then Some(map[])
    else if |arrs| < |pred| || !Distinct(pred) then None
    else Some(map p | 0 <= p < |pred| :: pred[p] := arrs[p])
  }

  /**
   * In a stripe map, the entry of the p-th predecessor holds, for each phi
   * in order, the phi's destination storage and its p-th argument.
   */
  lemma PhiStripesEntry(pred: seq<Block>, phis: seq<Instruction>, p: int, k: int)
    requires forall k :: 0 <= k < |phis| ==> phis[k].PhiAssignment?
    requires !NoStripes(phis) && PhiStripes(pred, phis).Some?
    requires 0 <= p < |pred| && 0 <= k < |phis|
    ensures pred[p] in PhiStripes(pred, phis).value
    ensures |PhiStripes(pred, phis).value[pred[p]]| == |phis|
    ensures p < |phis[k].arguments|
    ensures PhiStripes(pred, phis).value[pred[p]][k] == CallBinding(phis[k].dst.storage, phis[k].arguments[p].value)
  {
    var rows := PhiRows(phis);
    var arrs := ZipMany(rows);
    ZipManyLength(rows, |pred|);
    assert PhiStripes(pred, phis).value[pred[p]] == arrs[p];
  }

  /** The expressions of the use instructions among `stmts`, in order. */
  function UseExpressions(stmts: seq<Statement>): (es: seq<Expression>)
    ensures |es| <= |stmts|
  {
    if stmts == [] then []
    else (if stmts[0].instruction.UseInstruction? then [stmts[0].instruction.expression] else []) + UseExpressions(stmts[1..])
  }

  /**
   * The bindings of the use instructions: each used identifier's storage
   * with the identifier; None when some use instruction's expression is not
   * an identifier (Reko's cast to Identifier throws).
   */
  function UseBindings(es: seq<Expression>): (r: Option<seq<CallBinding>>)
    ensures r.Some? <==> forall k :: 0 <= k < |es| ==> es[k].Id?
    ensures r.Some? ==> |r.value| == |es| && forall k :: 0 <= k < |es| ==> r.value[k] == CallBinding(es[k].id.storage, es[k])
  {
    if es == [] then Some([])
    else if !es[0].Id? then None
    else
      match UseBindings(es[1..])
      case None => None
      case Some(rest) =>
        assert forall k :: 1 <= k < |es| ==> es[k] == es[1..][k - 1];
        Some([CallBinding(es[0].id.storage, es[0])] + rest)
  }

  /**
   * PredecessorPhiIdentifiers: for a block with several predecessors, the
   * p-th predecessor mapped to the p-th "stripe" of the phi assignments;
   * for a block with one predecessor, that predecessor mapped to the
   * bindings of the use instructions. None stands for the cases where
   * Reko throws: fewer stripes than predecessors, a predecessor listed
   * twice (Dictionary.Add of an existing key), a use instruction whose
   * expression is not an identifier.
   */
  function PredecessorPhiIdentifiers(block: Block): (r: Option<map<Block, seq<CallBinding>>>)
    reads block
    ensures |block.pred| == 0 ==> r == Some(map[])
    ensures |block.pred| == 1 ==>
      var uses := UseBindings(UseExpressions(block.statements));
      && (r.Some? <==> uses.Some?)
      && (r.Some? ==> r.value == map[block.pred[0] := uses.value])
    ensures |block.pred| > 1 ==> r == PhiStripes(block.pred, PhiAssignments(block.statements))
  {
    var pred := block.pred;
    if |pred| > 1 then
      PhiStripes(pred, PhiAssignments(block.statements))
    else if |pred| == 1 then
      match UseBindings(UseExpressions(block.statements))
      case None => None
      case Some(bindings) => Some(map[pred[0] := bindings])
    else Some(map[])
  }

  /**
   * ValidateDeadUses: for each record, every distinct use that is not one
   * of `stmts`, reported once.
   */
  method CheckDeadUses(table: map<Identifier, seq<Statement>>, stmts: seq<Statement>) returns (errors: seq<ValidationError>)
    ensures Distinct(errors) && Elements(errors) == DeadUseErrors(table, stmts)
  {
    errors := [];
    var todo := table.Keys;
    while todo != {}
      invariant todo <= table.Keys
      invariant Distinct(errors)
      invariant Elements(errors) == set id, u | id in table.Keys - todo && u in table[id] && u !in stmts :: DeadUse(id, u)
      decreases todo
    {
      var id :| id in todo;
      var uses := table[id];
      ghost var before := errors;
      var j := 0;
      while j < |uses|
        invariant 0 <= j <= |uses|
        invariant Distinct(errors)
        invariant Elements(errors) == Elements(before) + set u | u in uses[..j] && u !in stmts :: DeadUse(id, u)
      {
        if uses[j] !in stmts && uses[j] !in uses[..j] {
          assert DeadUse(id, uses[j]) !in Elements(errors);
          DistinctConcat(errors, [DeadUse(id, uses[j])]);
          errors := errors + [DeadUse(id, uses[j])];
        }
        assert uses[..j + 1] == uses[..j] + [uses[j]];
        j := j + 1;
      }
      assert uses[..j] == uses;
      todo := todo - {id};
    }
  }

  /**
   * The body of ValidateUses: the dead uses, then for each statement the
   * identifiers whose recorded count exceeds the actual one and those whose
   * actual count exceeds the recorded one.
   */
  method CheckUses(table: map<Identifier, seq<Statement>>, stmts: seq<Statement>) returns (errors: seq<ValidationError>)
    requires Distinct(stmts)
    ensures Distinct(errors) && Elements(errors) == UseErrors(table, stmts)
    ensures errors == [] <==> UsesConsistent(table, stmts)
  {
    errors := CheckDeadUses(table, stmts);
    ghost var dead := DeadUseErrors(table, stmts);
    var k := 0;
    while k < |stmts|
      invariant 0 <= k <= |stmts|
      invariant Distinct(errors)
      invariant Elements(errors) == dead + CountErrors(table, stmts[..k])
    {
      var stm := stmts[k];
      var more := ReportCountMismatches(stm, StoredCounts(table, stm), UseCounts(stm.instruction));
      CountErrorsSnoc(table, stmts, k);
      DistinctConcat(errors, more);
      errors := errors + more;
      k := k + 1;
    }
    assert stmts[..k] == stmts;
    UseErrorsEmptyIff(table, stmts);
    ElementsEmpty(errors);
  }

  // ---------------------------------------------------------------------
  // Specification of definition validation, over a snapshot of the table:
  // each identifier's recorded definition.

  /** The incorrect-definition errors: records whose definition is not the first actual one. */
  ghost function IncorrectDefinitionErrors(defs: map<Identifier, Statement?>, first: map<Identifier, Statement>): (errs: set<ValidationError>)
    ensures forall e :: e in errs ==> e.IncorrectDefinition? && e.id in defs
  {
    set id | id in defs && defs[id] != Lookup(first, id) :: IncorrectDefinition(id, defs[id], Lookup(first, id))
  }

  /** The missing-identifier errors: identifiers defined by some statement but absent from the table. */
  ghost function MissingIdentifierErrors(defs: map<Identifier, Statement?>, first: map<Identifier, Statement>): (errs: set<ValidationError>)
    ensures forall e :: e in errs ==> e.MissingIdentifier? && e.id !in defs
  {
    set id | id in first && id !in defs :: MissingIdentifier(id, first[id])
  }

  /** Everything ValidateDefinitions reports. */
  ghost function DefinitionErrors(defs: map<Identifier, Statement?>, stmts: seq<Statement>): set<ValidationError>
  {
    var first := FirstDefinitions(stmts);
    MultipleDefinitionErrors(stmts) + IncorrectDefinitionErrors(defs, first) + MissingIdentifierErrors(defs, first)
  }

  /** Each record's definition is its identifier's definer in `stmts`, or none when nothing defines it. */
  ghost predicate RecordsDefinedBy(defs: map<Identifier, Statement?>, stmts: seq<Statement>)
  {
    forall id :: id in defs ==> DefinedBy(stmts, id, defs[id])
  }

  /** Every identifier a statement of `stmts` defines has a record. */
  ghost predicate DefinitionsRecorded(defs: map<Identifier, Statement?>, stmts: seq<Statement>)
  {
    forall k, id :: 0 <= k < |stmts| && id in DefinitionsOf(stmts[k].instruction) ==> id in defs
  }

  /** The recorded definitions are the actual ones. */
  ghost predicate DefinitionsConsistent(defs: map<Identifier, Statement?>, stmts: seq<Statement>)
  {
    SingleDefiners(stmts) && RecordsDefinedBy(defs, stmts) && DefinitionsRecorded(defs, stmts)
  }

  lemma IncorrectDefinitionErrorsEmptyIff(defs: map<Identifier, Statement?>, stmts: seq<Statement>)
    requires SingleDefiners(stmts)
    ensures IncorrectDefinitionErrors(defs, FirstDefinitions(stmts)) == {} <==> RecordsDefinedBy(defs, stmts)
  {
    var first := FirstDefinitions(stmts);
    forall id | id in defs ensures DefinedBy(stmts, id, defs[id]) <==> defs[id] == Lookup(first, id) {
      LookupIsDefinedBy(stmts, id, defs[id]);
    }
    if !RecordsDefinedBy(defs, stmts) {
      var id :| id in defs && !DefinedBy(stmts, id, defs[id]);
      assert IncorrectDefinition(id, defs[id], Lookup(first, id)) in IncorrectDefinitionErrors(defs, first);
    }
  }

  lemma MissingIdentifierErrorsEmptyIff(defs: map<Identifier, Statement?>, stmts: seq<Statement>)
    ensures MissingIdentifierErrors(defs, FirstDefinitions(stmts)) == {} <==> DefinitionsRecorded(defs, stmts)
  {
    var first := FirstDefinitions(stmts);
    if MissingIdentifierErrors(defs, first) == {} {
      forall k, id | 0 <= k < |stmts| && id in DefinitionsOf(stmts[k].instruction) ensures id in defs {
        DefinedHasFirstDefinition(stmts, k, id);
        assert MissingIdentifier(id, first[id]) !in MissingIdentifierErrors(defs, first);
      }
    } else {
      var e :| e in MissingIdentifierErrors(defs, first);
      var k := FirstDefinitionAt(stmts, e.id);
    }
  }

  /** ValidateDefinitions reports nothing exactly when the recorded definitions are consistent. */
  lemma DefinitionErrorsEmptyIff(defs: map<Identifier, Statement?>, stmts: seq<Statement>)
    ensures DefinitionErrors(defs, stmts) == {} <==> DefinitionsConsistent(defs, stmts)
  {
    MultipleDefinitionErrorsEmptyIff(stmts);
    MissingIdentifierErrorsEmptyIff(defs, stmts);
    if SingleDefiners(stmts) {
      IncorrectDefinitionErrorsEmptyIff(defs, stmts);
    }
  }

  /** One more statement extends the first definitions and the multiple-definition errors by its own. */
  lemma DefinitionsSnoc(stmts: seq<Statement>, k: int)
    requires 0 <= k < |stmts| && Distinct(stmts)
    ensures FirstDefinitions(stmts[..k + 1]) == FirstDefinitions(stmts[..k])
      + map id | id in DefinitionsOf(stmts[k].instruction) && id !in FirstDefinitions(stmts[..k]) :: stmts[k]
    ensures MultipleDefinitionErrors(stmts[..k + 1]) == MultipleDefinitionErrors(stmts[..k])
      + set id | id in DefinitionsOf(stmts[k].instruction) && id in FirstDefinitions(stmts[..k])
        :: MultipleDefinitions(id, stmts[k], FirstDefinitions(stmts[..k])[id])
    ensures forall e :: e in MultipleDefinitionErrors(stmts[..k]) ==> e.stm != stmts[k]
  {
    assert stmts[..k + 1][..k] == stmts[..k];
  }

  /**
   * The inner loop of ValidateDefinitions for one statement: each identifier
   * it defines is either already defined (an error naming the earlier
   * definer) or recorded as defined here.
   */
  method RecordDefinitions(stm: Statement, actualDefs: map<Identifier, Statement>)
    returns (errors: seq<ValidationError>, newDefs: map<Identifier, Statement>)
    ensures newDefs == actualDefs + map id | id in DefinitionsOf(stm.instruction) && id !in actualDefs :: stm
    ensures Distinct(errors)
    ensures Elements(errors) == set id | id in DefinitionsOf(stm.instruction) && id in actualDefs :: MultipleDefinitions(id, stm, actualDefs[id])
  {
    var defined := DefinitionsOf(stm.instruction);
    errors, newDefs := [], actualDefs;
    var todo := defined;
    while todo != {}
      invariant todo <= defined
      invariant forall x :: x in newDefs <==> x in actualDefs || x in defined - todo
      invariant forall x :: x in newDefs ==> newDefs[x] == if x in actualDefs then actualDefs[x] else stm
      invariant Distinct(errors)
      invariant Elements(errors) == set id | id in defined - todo && id in actualDefs :: MultipleDefinitions(id, stm, actualDefs[id])
      decreases todo
    {
      var id :| id in todo;
      if id in newDefs {
        assert id in actualDefs && newDefs[id] == actualDefs[id];
        assert MultipleDefinitions(id, stm, newDefs[id]) !in Elements(errors);
        DistinctConcat(errors, [MultipleDefinitions(id, stm, newDefs[id])]);
        errors := errors + [MultipleDefinitions(id, stm, newDefs[id])];
      } else {
        newDefs := newDefs[id := stm];
      }
      todo := todo - {id};
    }
    assert newDefs == actualDefs + map id | id in defined && id !in actualDefs :: stm;
  }

  /**
   * The first loop of ValidateDefinitions: each identifier's first definer,
   * and an error for each later definer.
   */
  method CollectDefinitions(stmts: seq<Statement>) returns (errors: seq<ValidationError>, actualDefs: map<Identifier, Statement>)
    requires Distinct(stmts)
    ensures actualDefs == FirstDefinitions(stmts)
    ensures Distinct(errors) && Elements(errors) == MultipleDefinitionErrors(stmts)
  {
    actualDefs := map[];
    errors := [];
    var k := 0;
    while k < |stmts|
      invariant 0 <= k <= |stmts|
      invariant actualDefs == FirstDefinitions(stmts[..k])
      invariant Distinct(errors) && Elements(errors) == MultipleDefinitionErrors(stmts[..k])
    {
      var more;
      DefinitionsSnoc(stmts, k);
      more, actualDefs := RecordDefinitions(stmts[k], actualDefs);
      DistinctConcat(errors, more);
      errors := errors + more;
      k := k + 1;
    }
    assert stmts[..k] == stmts;
  }

  /** The second loop of ValidateDefinitions: each record whose definition is not the first definer. */
  method ReportIncorrectDefinitions(defs: map<Identifier, Statement?>, actualDefs: map<Identifier, Statement>)
    returns (errors: seq<ValidationError>)
    ensures Distinct(errors) && Elements(errors) == IncorrectDefinitionErrors(defs, actualDefs)
  {
    errors := [];
    var todo := defs.Keys;
    while todo != {}
      invariant todo <= defs.Keys
      invariant Distinct(errors)
      invariant Elements(errors) ==
        set id | id in defs.Keys - todo && defs[id] != Lookup(actualDefs, id) :: IncorrectDefinition(id, defs[id], Lookup(actualDefs, id))
      decreases todo
    {
      var id :| id in todo;
      var actualDef := Lookup(actualDefs, id);
      if defs[id] != actualDef {
        assert IncorrectDefinition(id, defs[id], actualDef) !in Elements(errors);
        DistinctConcat(errors, [IncorrectDefinition(id, defs[id], actualDef)]);
        errors := errors + [IncorrectDefinition(id, defs[id], actualDef)];
      }
      todo := todo - {id};
    }
  }

  /** The third loop of ValidateDefinitions: each defined identifier the table has no record of. */
  method ReportMissingIdentifiers(defs: map<Identifier, Statement?>, actualDefs: map<Identifier, Statement>)
    returns (errors: seq<ValidationError>)
    ensures Distinct(errors) && Elements(errors) == MissingIdentifierErrors(defs, actualDefs)
  {
    errors := [];
    var todo := actualDefs.Keys;
    while todo != {}
      invariant todo <= actualDefs.Keys
      invariant Distinct(errors)
      invariant Elements(errors) == set id | id in actualDefs.Keys - todo && id !in defs :: MissingIdentifier(id, actualDefs[id])
      decreases todo
    {
      var id :| id in todo;
      if id !in defs {
        assert MissingIdentifier(id, actualDefs[id]) !in Elements(errors);
        DistinctConcat(errors, [MissingIdentifier(id, actualDefs[id])]);
        errors := errors + [MissingIdentifier(id, actualDefs[id])];
      }
      todo := todo - {id};
    }
  }

  /**
   * The body of ValidateDefinitions: the multiple definitions found while
   * collecting each identifier's first definer, then each record whose
   * definition differs from the first definer, then each defined
   * identifier without a record.
   */
  method CheckDefinitions(defs: map<Identifier, Statement?>, stmts: seq<Statement>) returns (errors: seq<ValidationError>)
    requires Distinct(stmts)
    ensures Distinct(errors) && Elements(errors) == DefinitionErrors(defs, stmts)
    ensures errors == [] <==> DefinitionsConsistent(defs, stmts)
  {
    var multiple, actualDefs := CollectDefinitions(stmts);
    var incorrect := ReportIncorrectDefinitions(defs, actualDefs);
    var missing := ReportMissingIdentifiers(defs, actualDefs);
    DistinctConcat(multiple, incorrect);
    DistinctConcat(multiple + incorrect, missing);
    errors := multiple + incorrect + missing;
    DefinitionErrorsEmptyIff(defs, stmts);
    ElementsEmpty(errors);
  }

  /** The body of Validate: the use errors followed by the definition errors. */
  method CheckAll(uses: map<Identifier, seq<Statement>>, defs: map<Identifier, Statement?>, stmts: seq<Statement>)
    returns (errors: seq<ValidationError>)
    requires Distinct(stmts)
    ensures Distinct(errors)
    ensures Elements(errors) == UseErrors(uses, stmts) + DefinitionErrors(defs, stmts)
    ensures errors == [] <==> UsesConsistent(uses, stmts) && DefinitionsConsistent(defs, stmts)
  {
    var useErrors := CheckUses(uses, stmts);
    var defErrors := CheckDefinitions(defs, stmts);
    DistinctConcat(useErrors, defErrors);
    errors := useErrors + defErrors;
    ElementsConcat(useErrors, defErrors);
  }

  class SsaState {
    /** The procedure this SSA state was derived from. */
    const procedure: Procedure
    /** The identifier table: each identifier's SSA record. */
    var identifiers: map<Identifier, SsaIdentifier>

    constructor (proc: Procedure)
      requires WellFormed(proc)
      ensures Valid() && procedure == proc && identifiers == map[]
    {
      procedure := proc;
      identifiers := map[];
    }

    /** The procedure is well formed, and the table keys each record by its own identifier. */
    ghost predicate Valid()
      reads this, procedure.blocks, identifiers.Values
    {
      && WellFormed(procedure)
      && forall id :: id in identifiers ==> identifiers[id].identifier == id
    }

    /** List.Insert on the statements of `b`, with a statement of `b` not yet in it. */
    method InsertStatement(b: Block, pos: nat, stm: Statement)
      requires WellFormed(procedure) && pos <= |b.statements|
      requires stm.block == b && stm !in b.statements
      modifies b
      ensures b.statements == InsertAt(old(b.statements), pos, stm) && b.pred == old(b.pred)
      ensures WellFormed(procedure)
    {
      ghost var before := b.statements;
      b.statements := InsertAt(b.statements, pos, stm);
      if b in procedure.blocks {
        InsertKeepsDistinct(before, pos, stm);
      }
      KeepsWellFormed(b);
    }

    /**
     * EnsureDefInstruction: the record of `id`, created together with a new
     * DefInstruction statement in `b` when the table has none.
     */
    method EnsureDefInstruction(id: Identifier, b: Block) returns (sid: SsaIdentifier)
      requires Valid() && b in procedure.blocks
      modifies this, b
      ensures Valid()
      ensures b.pred == old(b.pred)
      ensures id in old(identifiers) ==>
        && sid == old(identifiers[id])
        && identifiers == old(identifiers)
        && b.statements == old(b.statements)
      ensures id !in old(identifiers) ==>
        && fresh(sid)
        && identifiers == old(identifiers)[id := sid]
        && sid.identifier == id && sid.uses == []
        && sid.defStatement != null && fresh(sid.defStatement)
        && sid.defStatement.instruction == DefInstruction(id)
        && sid.defStatement.block == b && sid.defStatement.address == b.address
      ensures id !in old(identifiers) ==>
        var pos := IndexOf(b.statements, sid.defStatement);
        && 0 <= pos <= |old(b.statements)|
        && b.statements == InsertAt(old(b.statements), pos, sid.defStatement)
        && (b == procedure.entryBlock ==> IsLastDefPosition(old(b.statements), pos - 1))
        && (b != procedure.entryBlock ==> pos == |old(b.statements)|)
    {
      if id in identifiers {
        sid := identifiers[id];
      } else {
        sid := AddDefInstruction(id, b);
      }
    }

    /**
     * The creating branch of EnsureDefInstruction: a new record for `id`
     * whose definition is a new DefInstruction statement, placed after the
     * entry block's leading definitions, or at the end of any other block.
     */
    method AddDefInstruction(id: Identifier, b: Block) returns (sid: SsaIdentifier)
      requires Valid() && b in procedure.blocks && id !in identifiers
      modifies this, b
      ensures Valid() && b.pred == old(b.pred)
      ensures fresh(sid) && identifiers == old(identifiers)[id := sid]
      ensures sid.identifier == id && sid.uses == []
      ensures sid.defStatement != null && fresh(sid.defStatement)
      ensures sid.defStatement.instruction == DefInstruction(id)
      ensures sid.defStatement.block == b && sid.defStatement.address == b.address
      ensures
        var pos := IndexOf(b.statements, sid.defStatement);
        && 0 <= pos <= |old(b.statements)|
        && b.statements == InsertAt(old(b.statements), pos, sid.defStatement)
        && (b == procedure.entryBlock ==> IsLastDefPosition(old(b.statements), pos - 1))
        && (b != procedure.entryBlock ==> pos == |old(b.statements)|)
    {
      var stm := new Statement(b.address, DefInstruction(id), b);
      ghost var before := b.statements;
      var pos: nat;
      if b == procedure.entryBlock {
        var last := LastDefPosition(b.statements);
        pos := last + 1;
        assert IsLastDefPosition(before, pos - 1);
      } else {
        pos := |b.statements|;
      }
      InsertStatement(b, pos, stm);
      InsertedFreshIsFound(before, pos, stm);
      assert IndexOf(b.statements, stm) == pos;
      sid := new SsaIdentifier(id, stm);
      identifiers := identifiers[id := sid];
    }

    /**
     * InsertAfterDefinition: inserts the alias assignment `ass` after
     * `stmBefore` and after the run of alias assignments that follows it,
     * and registers its destination in the table.
     */
    method InsertAfterDefinition(stmBefore: Statement, ass: Instruction) returns (sidTo: SsaIdentifier, ghost stm: Statement)
      requires Valid() && ass.AliasAssignment?
      modifies this, stmBefore.block
      ensures Valid() && stmBefore.block.pred == old(stmBefore.block.pred)
      ensures fresh(stm) && stm.block == stmBefore.block && stm.address == stmBefore.address
      ensures stm.instruction == ass && stm.instruction.dst == sidTo.identifier
      ensures
        var before := old(stmBefore.block.statements);
        stmBefore.block.statements == InsertAt(before, AliasRunEnd(before, IndexOf(before, stmBefore)) + 1, stm)
      ensures ass.dst in old(identifiers) ==> sidTo == old(identifiers[ass.dst]) && identifiers == old(identifiers)
      ensures ass.dst !in old(identifiers) ==>
        && fresh(sidTo)
        && identifiers == old(identifiers)[ass.dst := sidTo]
        && sidTo.defStatement == stm && sidTo.uses == []
    {
      var b := stmBefore.block;
      var i := IndexOf(b.statements, stmBefore);
      ghost var start := i;
      // Skip alias statements
      while i < |b.statements| - 1 && b.statements[i + 1].instruction.AliasAssignment?
        invariant start <= i < |b.statements|
        invariant AliasRunEnd(b.statements, i) == AliasRunEnd(b.statements, start)
        decreases |b.statements| - i
      {
        i := i + 1;
      }
      var s := new Statement(stmBefore.address, ass, b);
      stm := s;
      InsertStatement(b, i + 1, s);

      if ass.dst in identifiers {
        sidTo := identifiers[ass.dst];
      } else {
        sidTo := new SsaIdentifier(ass.dst, s);
        identifiers := identifiers[ass.dst := sidTo];
      }
      // Reko assigns sidTo.Identifier back to ass.Dst; since the record keeps
      // ass.dst itself, that is the identity here.
    }

    /**
     * DeleteStatement: no record keeps `stm` as its definition, the records
     * of the identifiers `stm` uses no longer list it, and it leaves its block.
     */
    method DeleteStatement(stm: Statement)
      requires Valid()
      modifies identifiers.Values, stm.block
      ensures Valid()
      ensures forall r :: r in identifiers.Values ==>
        r.defStatement == (if old(r.defStatement) == stm then null else old(r.defStatement))
      ensures forall r :: r in identifiers.Values ==> r.defStatement != stm
      ensures forall r :: r in identifiers.Values ==>
        r.uses == (if r.identifier in UsesOf(stm.instruction) then RemoveAll(old(r.uses), stm) else old(r.uses))
      ensures stm.block.statements == RemoveFirst(old(stm.block.statements), stm)
      ensures stm.block.pred == old(stm.block.pred)
      ensures stm.block in procedure.blocks ==> stm !in stm.block.statements
    {
      // Remove all definitions and uses.
      ReplaceDefinitions(stm, null);
      // For each used identifier remove this statement from its uses.
      RemoveUses(stm);
      // Remove the statement itself.
      var b := stm.block;
      ghost var before := b.statements;
      b.statements := RemoveFirst(b.statements, stm);
      RemoveFirstSubsequence(before, stm);
      if b in procedure.blocks {
        assert OwnsStatements(b) by {
          forall k | 0 <= k < |b.statements| ensures b.statements[k].block == b {
            assert b.statements[k] in before;
          }
        }
      }
      KeepsWellFormed(b);
    }

    /**
     * ReplaceDefinitions: every record defined by `stmOld` is now defined by
     * `stmNew` (none, when it is null); no other record changes.
     */
    method ReplaceDefinitions(stmOld: Statement, stmNew: Statement?)
      requires Valid()
      modifies identifiers.Values
      ensures Valid()
      ensures forall r :: r in identifiers.Values ==>
        && r.uses == old(r.uses)
        && r.defStatement == (if old(r.defStatement) == stmOld then stmNew else old(r.defStatement))
    {
      var todo := identifiers.Values;
      while todo != {}
        invariant todo <= identifiers.Values
        invariant Valid()
        invariant forall r :: r in identifiers.Values ==> r.uses == old(r.uses)
        invariant forall r :: r in todo ==> r.defStatement == old(r.defStatement)
        invariant forall r :: r in identifiers.Values && r !in todo ==>
          r.defStatement == (if old(r.defStatement) == stmOld then stmNew else old(r.defStatement))
        decreases todo
      {
        var sid :| sid in todo;
        if sid.defStatement == stmOld {
          sid.defStatement := stmNew;
        }
        todo := todo - {sid};
      }
    }

    /**
     * AddDefinitions: each identifier `stm` defines that has a record is now
     * defined by `stm`; no record is added and no other record changes.
     */
    method AddDefinitions(stm: Statement)
      requires Valid()
      modifies identifiers.Values
      ensures Valid()
      ensures forall r :: r in identifiers.Values ==>
        && r.uses == old(r.uses)
        && r.defStatement == (if r.identifier in DefinitionsOf(stm.instruction) then stm else old(r.defStatement))
    {
      var definitions := DefinitionsOf(stm.instruction);
      var todo := definitions;
      RecordsByIdentifier();
      while todo != {}
        invariant todo <= definitions
        invariant Valid()
        invariant forall r :: r in identifiers.Values ==>
          && r.uses == old(r.uses)
          && r.defStatement == (if r.identifier in definitions - todo then stm else old(r.defStatement))
        decreases todo
      {
        var id :| id in todo;
        if id in identifiers {
          identifiers[id].defStatement := stm;
        }
        todo := todo - {id};
      }
    }

    /** RemoveUses(stm): the records of the identifiers `stm` uses no longer list it (nothing for null). */
    method RemoveUses(stm: Statement?)
      requires Valid()
      modifies identifiers.Values
      ensures Valid()
      ensures forall r :: r in identifiers.Values ==>
        && r.defStatement == old(r.defStatement)
        && r.uses == (if stm != null && r.identifier in UsesOf(stm.instruction) then RemoveAll(old(r.uses), stm) else old(r.uses))
    {
      if stm != null {
        var used := UsesOf(stm.instruction);
        EditUses(set id | id in used, (uses, id) => RemoveAll(uses, stm));
      }
    }

    /** RemoveUses(stmUsing, e): one listing of `stmUsing` goes per occurrence of an identifier in `e`. */
    method RemoveExpressionUses(stmUsing: Statement, e: Expression)
      requires Valid()
      modifies identifiers.Values
      ensures Valid()
      ensures forall r :: r in identifiers.Values ==>
        && r.defStatement == old(r.defStatement)
        && r.uses == RemoveCopies(old(r.uses), stmUsing, ExpressionUses(e)[r.identifier])
    {
      var used := ExpressionUses(e);
      EditUses(set id | id in used, (uses, id) => RemoveCopies(uses, stmUsing, used[id]));
    }

    /** AddUses(stm): `stm` is listed once more per occurrence of each identifier it uses. */
    method AddUses(stm: Statement)
      requires Valid()
      modifies identifiers.Values
      ensures Valid()
      ensures forall r :: r in identifiers.Values ==>
        && r.defStatement == old(r.defStatement)
        && r.uses == AddCopies(old(r.uses), stm, UsesOf(stm.instruction)[r.identifier])
    {
      var used := UsesOf(stm.instruction);
      EditUses(set id | id in used, (uses, id) => AddCopies(uses, stm, used[id]));
    }

    /** AddUses(stmUsing, e): `stmUsing` is listed once more per occurrence of an identifier in `e`. */
    method AddExpressionUses(stmUsing: Statement, e: Expression)
      requires Valid()
      modifies identifiers.Values
      ensures Valid()
      ensures forall r :: r in identifiers.Values ==>
        && r.defStatement == old(r.defStatement)
        && r.uses == AddCopies(old(r.uses), stmUsing, ExpressionUses(e)[r.identifier])
    {
      var used := ExpressionUses(e);
      EditUses(set id | id in used, (uses, id) => AddCopies(uses, stmUsing, used[id]));
    }

    /** Applies `edit` to the use list of the record of each identifier in `ids` that has one. */
    method EditUses(ids: set<Identifier>, edit: (seq<Statement>, Identifier) -> seq<Statement>)
      requires Valid()
      modifies identifiers.Values
      ensures Valid()
      ensures forall r :: r in identifiers.Values ==>
        && r.defStatement == old(r.defStatement)
        && r.uses == (if r.identifier in ids then edit(old(r.uses), r.identifier) else old(r.uses))
    {
      var todo := ids;
      RecordsByIdentifier();
      while todo != {}
        invariant todo <= ids
        invariant Valid()
        invariant forall r :: r in identifiers.Values ==>
          && r.defStatement == old(r.defStatement)
          && r.uses == (if r.identifier in ids - todo then edit(old(r.uses), r.identifier) else old(r.uses))
        decreases todo
      {
        var id :| id in todo;
        if id in identifiers {
          var sid := identifiers[id];
          sid.uses := edit(sid.uses, id);
        }
        todo := todo - {id};
      }
    }

    /** The table as the use validator sees it: each identifier's recorded uses. */
    function UseTable(): (table: map<Identifier, seq<Statement>>)
      reads this, identifiers.Values
      ensures table.Keys == identifiers.Keys
    {
      map id | id in identifiers :: identifiers[id].uses
    }

    /**
     * ValidateUses: compares the uses recorded in the table with the actual
     * uses of the procedure's statements (see CheckUses).
     */
    method ValidateUses() returns (errors: seq<ValidationError>)
      requires Valid()
      ensures Distinct(errors) && Elements(errors) == UseErrors(UseTable(), procedure.Statements())
      ensures errors == [] <==> UsesConsistent(UseTable(), procedure.Statements())
    {
      StatementsDistinct();
      errors := CheckUses(UseTable(), procedure.Statements());
    }

    /** The table as the definition validator sees it: each identifier's recorded definition. */
    function DefTable(): (table: map<Identifier, Statement?>)
      reads this, identifiers.Values
      ensures table.Keys == identifiers.Keys
    {
      map id | id in identifiers :: identifiers[id].defStatement
    }

    /**
     * ValidateDefinitions: compares the definitions recorded in the table
     * with the actual definitions of the procedure's statements (see
     * CheckDefinitions).
     */
    method ValidateDefinitions() returns (errors: seq<ValidationError>)
      requires Valid()
      ensures Distinct(errors) && Elements(errors) == DefinitionErrors(DefTable(), procedure.Statements())
      ensures errors == [] <==> DefinitionsConsistent(DefTable(), procedure.Statements())
    {
      StatementsDistinct();
      errors := CheckDefinitions(DefTable(), procedure.Statements());
    }

    /** Validate: the use errors followed by the definition errors; none exactly when the table is consistent. */
    method Validate() returns (errors: seq<ValidationError>)
      requires Valid()
      ensures Distinct(errors)
      ensures Elements(errors) == UseErrors(UseTable(), procedure.Statements()) + DefinitionErrors(DefTable(), procedure.Statements())
      ensures errors == [] <==>
        UsesConsistent(UseTable(), procedure.Statements()) && DefinitionsConsistent(DefTable(), procedure.Statements())
    {
      StatementsDistinct();
      errors := CheckAll(UseTable(), DefTable(), procedure.Statements());
    }

    /** No statement of a valid state's procedure is listed twice. */
    lemma StatementsDistinct()
      requires Valid()
      ensures Distinct(procedure.Statements())
    {
      StatementsOfDistinct(procedure.blocks);
    }

    /** Each record in the table is the one its own identifier maps to. */
    lemma RecordsByIdentifier()
      requires Valid()
      ensures forall r :: r in identifiers.Values ==> r.identifier in identifiers && identifiers[r.identifier] == r
    {
      forall r | r in identifiers.Values ensures r.identifier in identifiers && identifiers[r.identifier] == r {
        var id :| id in identifiers && identifiers[id] == r;
      }
    }

    /** A fresh statement inserted at `pos` is found by IndexOf at `pos`. */
    static lemma InsertedFreshIsFound(before: seq<Statement>, pos: nat, stm: Statement)
      requires pos <= |before| && stm !in before
      ensures IndexOf(InsertAt(before, pos, stm), stm) == pos
    {
      var after := InsertAt(before, pos, stm);
      var i := IndexOf(after, stm);
      assert after[pos] == stm;
      assert forall k :: 0 <= k < pos ==> after[k] != stm;
      assert forall m :: pos < m <= |after| ==> stm in after[..m];
    }

    /** Changing only the list of `b`, so that `b` still owns it, keeps the procedure well formed. */
    twostate lemma KeepsWellFormed(b: Block)
      requires old(WellFormed(procedure))
      requires b in procedure.blocks ==> OwnsStatements(b)
      requires forall i :: 0 <= i < |procedure.blocks| && procedure.blocks[i] != b ==> unchanged(procedure.blocks[i])
      ensures WellFormed(procedure)
    {
      forall i | 0 <= i < |procedure.blocks| ensures OwnsStatements(procedure.blocks[i]) {
        var bi := procedure.blocks[i];
        if bi != b {
          assert old(OwnsStatements(bi));
        }
      }
    }
  }
}
