/** Source-backed type evidence and its queries (smartbench/ir/type_evidence.py). */
module TypeEvidence {
  import opened Sequences
  import opened Ir

  datatype Role = Binding | Receiver | ResultRole

  /** One assertion about an operation's type; empty strings mean nothing was stated. */
  datatype Evidence = Evidence(id: Id, operation: Id, role: Role, normalizedType: string, canonical: string)

  /** The index: all evidence in its sort order. */
  type Index = seq<Evidence>

  function ForOperation(index: Index, operation: Id, role: Role): seq<Evidence> {
    Filter((e: Evidence) => e.operation == operation && e.role == role, index)
  }

  function TypesOf(index: Index, operation: Id, role: Role): set<string> {
    var items := ForOperation(index, operation, role);
    set e | e in items && e.normalizedType != "" :: e.normalizedType
  }

  /** unique_type: the only type stated, or the empty string. */
  function UniqueType(index: Index, operation: Id, role: Role): (r: string)
    ensures r != "" <==> |TypesOf(index, operation, role)| == 1
    ensures r != "" ==> TypesOf(index, operation, role) == {r}
  {
    var types := TypesOf(index, operation, role);
    if |types| != 1 then ""
    else
      assert exists x :: types == {x} by { SingletonSet(types); }
      var x :| types == {x};
      assert x in types;
      x
  }

  function CanonicalSymbols(index: Index, operation: Id): set<string> {
    var items := ForOperation(index, operation, Receiver);
    set e | e in items && e.canonical != "" :: e.canonical
  }

  function EvidenceIds(index: Index, operation: Id, role: Role): seq<Id> {
    MapSeq((e: Evidence) => e.id, ForOperation(index, operation, role))
  }

  /** type_names_compatible: equal and non-empty after normalization. */
  predicate Compatible(normalize: string -> string, expected: string, actual: string) {
    normalize(expected) != "" && normalize(expected) == normalize(actual)
  }
}
