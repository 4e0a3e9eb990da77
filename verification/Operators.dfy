/** The operators table at a rotation (internal/store/operators.go, handleRotateOperator in internal/api/server.go). */
module Operators {
  import opened Basics

  datatype Operator = Operator(id: int, hash: Str, prefix: Str)

  /** The table under its UNIQUE name. */
  type OperatorTable = map<Str, Operator>

  /** What token.OperatorToken draws. */
  datatype Issued = Issued(token: Str, hash: Str, prefix: Str)

  predicate IdsDistinct(ops: OperatorTable)
  {
    forall m, n :: m in ops && n in ops && ops[m].id == ops[n].id ==> m == n
  }

  /** UpdateOperatorHash. */
  function WithHash(ops: OperatorTable, id: int, issued: Issued): OperatorTable
  {
    map n | n in ops :: if ops[n].id == id then ops[n].(hash := issued.hash, prefix := issued.prefix) else ops[n]
  }

  /** The end of a rotation; `updated` says whether both the read and the UPDATE are carried out. No error is reported. */
  function AfterRotation(ops: OperatorTable, name: Str, issued: Issued, updated: bool): OperatorTable
  {
    if name in ops && updated then WithHash(ops, ops[name].id, issued) else ops
  }

  /** GetOperatorByHash finds a row. */
  predicate LogsIn(ops: OperatorTable, hash: Str) { exists n :: n in ops && ops[n].hash == hash }

  /** The token in the reply logs in exactly when the row was there and was updated, or its hash was in use already. */
  lemma {:induction false} NewTokenLogsInIff(ops: OperatorTable, name: Str, issued: Issued, updated: bool)
    ensures LogsIn(AfterRotation(ops, name, issued, updated), issued.hash) <==>
      (name in ops && updated) || LogsIn(ops, issued.hash)
  {
    var after := AfterRotation(ops, name, issued, updated);
    if name in ops && updated {
      assert after[name].hash == issued.hash;
    }
  }

  /** Any other token logs in afterwards exactly when it did before and not through that row. */
  lemma {:induction false} OldTokenLogsInIff(ops: OperatorTable, name: Str, issued: Issued, updated: bool, hash: Str)
    requires IdsDistinct(ops) && hash != issued.hash
    ensures LogsIn(AfterRotation(ops, name, issued, updated), hash) <==>
      exists n :: n in ops && ops[n].hash == hash && (n != name || !updated)
  {
    var after := AfterRotation(ops, name, issued, updated);
    if n :| n in after && after[n].hash == hash { assert n in ops && ops[n].hash == hash && (n != name || !updated); }
    if n :| n in ops && ops[n].hash == hash && (n != name || !updated) { assert n in after && after[n] == ops[n]; }
  }

  /** The row keeps its id and takes the new hash and prefix, and every other row stays as it is. */
  lemma {:induction false} RotatedColumns(ops: OperatorTable, name: Str, issued: Issued, updated: bool, n: Str)
    requires IdsDistinct(ops) && n in ops
    ensures var after := AfterRotation(ops, name, issued, updated);
      after.Keys == ops.Keys &&
      after[n] == if n == name && updated then Operator(ops[n].id, issued.hash, issued.prefix) else ops[n]
  {}
}
