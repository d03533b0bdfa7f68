/**
 The query builder the handlers write into, reduced to what they use of it:
 an append-only list of raw WHERE fragments, each with its ordered bound
 parameters. `whereRaw` appends one fragment and returns the same builder.
 */
module QueryBuilder {
  import opened JsValues
  import opened SqlText

  /** One `whereRaw(sql, params)` call. */
  datatype Clause = Clause(sql: string, params: seq<JsValue>)

  datatype Builder = Builder(clauses: seq<Clause>)

  /** The latest fragment added to a builder. */
  function Last(qb: Builder): Clause
    requires |qb.clauses| > 0
  {
    qb.clauses[|qb.clauses| - 1]
  }

  /** `queryBuilder.whereRaw(sql, params)`. */
  function WhereRaw(qb: Builder, sql: string, params: seq<JsValue>): (r: Builder)
    ensures |r.clauses| == |qb.clauses| + 1
    ensures r.clauses[..|qb.clauses|] == qb.clauses
    ensures Last(r) == Clause(sql, params)
  {
    Builder(qb.clauses + [Clause(sql, params)])
  }

  /** Every parameter of the builder, in the order its fragments were added. */
  function Bindings(qb: Builder): seq<JsValue> {
    ParamsOf(qb.clauses)
  }

  function ParamsOf(clauses: seq<Clause>): seq<JsValue> {
    if |clauses| == 0 then [] else ParamsOf(clauses[..|clauses| - 1]) + clauses[|clauses| - 1].params
  }

  /** `?` markers over all fragments, in the order the fragments were added. */
  function PlaceholderCount(clauses: seq<Clause>): nat {
    if |clauses| == 0 then 0
    else PlaceholderCount(clauses[..|clauses| - 1]) + CountChar('?', clauses[|clauses| - 1].sql)
  }

  /** A fragment whose text carries exactly one `?` per bound parameter. */
  predicate Balanced(cl: Clause) {
    CountChar('?', cl.sql) == |cl.params|
  }

  predicate AllBalanced(qb: Builder) {
    forall i :: 0 <= i < |qb.clauses| ==> Balanced(qb.clauses[i])
  }

  /** Appending keeps the earlier parameters first: the statement binds in fragment order. */
  lemma WhereRawBindings(qb: Builder, sql: string, params: seq<JsValue>)
    ensures Bindings(WhereRaw(qb, sql, params)) == Bindings(qb) + params
  {
  }

  /** When every fragment is balanced, the whole WHERE clause has one `?` per bound parameter. */
  lemma {:induction false} BalancedBuilderPlaceholders(qb: Builder)
    requires AllBalanced(qb)
    ensures PlaceholderCount(qb.clauses) == |Bindings(qb)|
    decreases |qb.clauses|
  {
    if |qb.clauses| > 0 {
      var prefix := Builder(qb.clauses[..|qb.clauses| - 1]);
      assert AllBalanced(prefix) by {
        forall i | 0 <= i < |prefix.clauses|
          ensures Balanced(prefix.clauses[i])
        {
          assert prefix.clauses[i] == qb.clauses[i];
        }
      }
      BalancedBuilderPlaceholders(prefix);
      assert Balanced(qb.clauses[|qb.clauses| - 1]);
    }
  }

  /** Adding a balanced fragment to a balanced builder keeps it balanced. */
  lemma WhereRawKeepsBalance(qb: Builder, sql: string, params: seq<JsValue>)
    requires AllBalanced(qb)
    requires CountChar('?', sql) == |params|
    ensures AllBalanced(WhereRaw(qb, sql, params))
  {
  }
}
