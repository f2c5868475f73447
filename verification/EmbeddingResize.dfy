/** The greenfield resize of the embedding columns, against the deploy preflight that judges its result. */
module EmbeddingResize {
  import opened Options

  const MAX_HNSW_VECTOR_DIM: int := 2000
  const MAX_VECTOR_DIM: int := 16000

  // ----- the database

  datatype Column = Column(schema: string, table: string, col: string)

  datatype IndexName = IndexName(schema: string, name: string)

  datatype Index = Index(on: Column, where: string)

  datatype Runtime = Runtime(activeGeneration: int, pendingGeneration: Option<int>, activeDimension: int)

  /** Widths of the vector columns (0: none declared), row counts, HNSW indexes, generations, the singleton. */
  datatype Db = Db(widths: map<Column, int>, rows: map<Column, nat>, indexes: map<IndexName, Index>,
                   generations: map<int, int>, runtime: Option<Runtime>)

  datatype VectorTarget = VectorTarget(column: Column, index: Option<string>, where: string)

  const TARGETS: seq<VectorTarget> := [
    VectorTarget(Column("core", "chunk_embeddings", "embedding"), Some("chunk_embeddings_hnsw_idx"), ""),
    VectorTarget(Column("core", "knowledge_chunks", "vector"), Some("idx_knowledge_chunks_vector_hnsw"), ""),
    VectorTarget(Column("core", "confluence_chunks", "embedding"), Some("confluence_chunks_embedding_hnsw_live"),
                 "WHERE superseded_at IS NULL AND deleted_at IS NULL AND quarantined = false"),
    VectorTarget(Column("cache", "cache_embeddings", "embedding"), None, "")
  ]

  /** The columns that the preflight looks up. */
  const OBSERVED: seq<Column> := [
    Column("core", "chunk_embeddings", "embedding"), Column("core", "knowledge_chunks", "vector"),
    Column("core", "confluence_chunks", "embedding"), Column("cache", "cache_embeddings", "embedding")
  ]

  /** The HNSW indexes as the migrations create them. */
  const MIGRATED: map<IndexName, Index> := map[
    IndexName("core", "chunk_embeddings_hnsw_idx") := Index(Column("core", "chunk_embeddings", "embedding"), ""),
    IndexName("core", "idx_knowledge_chunks_vector_hnsw") := Index(Column("core", "knowledge_chunks", "vector"), ""),
    IndexName("core", "confluence_chunks_embedding_hnsw_live") :=
      Index(Column("core", "confluence_chunks", "embedding"),
            "WHERE superseded_at IS NULL AND deleted_at IS NULL AND quarantined = false")
  ]

  datatype Statement =
    | DropIndex(name: IndexName)
    | AlterWidth(column: Column, dim: int)
    | CreateIndex(name: IndexName, index: Index)
    | SetGenerationDimension(dim: int)
    | SetRuntimeDimension(dim: int)

  /** One statement's effect, or None when PostgreSQL rejects it. */
  function Exec(db: Db, s: Statement): Option<Db> {
    match s
    case DropIndex(name) => Some(db.(indexes := db.indexes - {name}))
    case AlterWidth(column, dim) =>
      if column !in db.widths || !(1 <= dim <= MAX_VECTOR_DIM) then None
      else Some(db.(widths := db.widths[column := dim]))
    case CreateIndex(name, index) =>
      if name in db.indexes || index.on !in db.widths || !(1 <= db.widths[index.on] <= MAX_HNSW_VECTOR_DIM) then None
      else Some(db.(indexes := db.indexes[name := index]))
    case SetGenerationDimension(dim) =>
      Some(if 1 in db.generations then db.(generations := db.generations[1 := dim]) else db)
    case SetRuntimeDimension(dim) =>
      Some(if db.runtime.Some? then db.(runtime := Some(db.runtime.value.(activeDimension := dim))) else db)
  }

  function ExecAll(db: Db, ss: seq<Statement>): Option<Db>
    decreases |ss|
  {
    if ss == [] then Some(db)
    else
      var next := Exec(db, ss[0]);
      if next.None? then None else ExecAll(next.value, ss[1..])
  }

  // ----- the statements

  function NameOf(t: VectorTarget): IndexName
    requires t.index.Some?
  {
    IndexName(t.column.schema, t.index.value)
  }

  function TargetStatements(t: VectorTarget, dim: int): seq<Statement> {
    (if t.index.Some? then [DropIndex(NameOf(t))] else [])
    + [AlterWidth(t.column, dim)]
    + (if t.index.Some? then [CreateIndex(NameOf(t), Index(t.column, t.where))] else [])
  }

  function AllTargetStatements(ts: seq<VectorTarget>, dim: int): seq<Statement> {
    if ts == [] then []
    else AllTargetStatements(ts[..|ts| - 1], dim) + TargetStatements(ts[|ts| - 1], dim)
  }

  function ResizeStatements(targets: seq<VectorTarget>, dim: int): seq<Statement> {
    AllTargetStatements(targets, dim) + [SetGenerationDimension(dim), SetRuntimeDimension(dim)]
  }

  method BuildResizeStatements(targets: seq<VectorTarget>, dim: int) returns (out: seq<Statement>)
    ensures out == ResizeStatements(targets, dim)
  {
    out := [];
    for i := 0 to |targets|
      invariant out == AllTargetStatements(targets[..i], dim)
    {
      var t := targets[i];
      if t.index.Some? {
        out := out + [DropIndex(NameOf(t))];
      }
      out := out + [AlterWidth(t.column, dim)];
      if t.index.Some? {
        out := out + [CreateIndex(NameOf(t), Index(t.column, t.where))];
      }
      assert targets[..i + 1][..i] == targets[..i];
    }
    assert targets[..|targets|] == targets;
    out := out + [SetGenerationDimension(dim)];
    out := out + [SetRuntimeDimension(dim)];
  }

  // ----- the transaction

  predicate Empty(db: Db, ts: seq<VectorTarget>) {
    forall t :: t in ts ==> t.column !in db.rows || db.rows[t.column] == 0
  }

  /** `assertGreenfieldBaseline` on what the queries return; a missing singleton reads as generation -1. */
  predicate Baseline(db: Db) {
    && (if db.runtime.Some? then db.runtime.value.activeGeneration else -1) == 1
    && (db.runtime.Some? ==> db.runtime.value.pendingGeneration.None?)
    && |db.generations| == 1
  }

  datatype Outcome = Committed | Refused | RolledBack

  class Database {
    var db: Db
    const faults: set<nat>  // the statements, and after them the COMMIT, that fail for reasons outside the model

    constructor (db: Db, faults: set<nat>)
      ensures this.db == db && this.faults == faults
    {
      this.db, this.faults := db, faults;
    }

    /** BEGIN, the statements in order, COMMIT; a ROLLBACK at the first that fails. */
    method Transact(statements: seq<Statement>) returns (committed: bool)
      modifies this
      ensures committed <==> ExecAll(old(db), statements).Some? && forall k :: k in faults ==> k > |statements|
      ensures if committed then ExecAll(old(db), statements) == Some(db) else db == old(db)
    {
      var before := db;
      for i := 0 to |statements|
        invariant before == old(db)
        invariant ExecAll(db, statements[i..]) == ExecAll(before, statements)
        invariant forall k :: k in faults ==> k >= i
      {
        assert statements[i..][1..] == statements[i + 1..];
        var next := Exec(db, statements[i]);
        if i in faults || next.None? {
          db := before;
          return false;
        }
        db := next.value;
      }
      if |statements| in faults {
        db := before;
        return false;
      }
      return true;
    }

    /** Nothing changes unless every check passes and every statement succeeds; then all of it does. */
    method SetEmbeddingDimension(targets: seq<VectorTarget>, dim: int) returns (r: Outcome)
      modifies this
      ensures r.Refused? <==>
        || (exists t :: t in targets && t.column in old(db).rows && old(db).rows[t.column] > 0)
        || old(db).runtime.None? || old(db).runtime.value.activeGeneration != 1
        || old(db).runtime.value.pendingGeneration.Some? || |old(db).generations| != 1
      ensures r.Committed? ==> forall k :: k in faults ==> k > |ResizeStatements(targets, dim)|
      ensures r.RolledBack? ==> ExecAll(old(db), ResizeStatements(targets, dim)).None?
                                || exists k :: k in faults && k <= |ResizeStatements(targets, dim)|
      ensures if r.Committed? then ExecAll(old(db), ResizeStatements(targets, dim)) == Some(db) else db == old(db)
    {
      for i := 0 to |targets|
        invariant db == old(db) && Empty(db, targets[..i])
      {
        var t := targets[i];
        if t.column in db.rows && db.rows[t.column] > 0 { return Refused; }
      }
      if !Baseline(db) { return Refused; }
      var statements := BuildResizeStatements(targets, dim);
      var committed := Transact(statements);
      return if committed then Committed else RolledBack;
    }
  }

  // ----- the preflight

  datatype Observation = Observation(configured: int, generation: Option<int>, runtime: Option<int>,
                                     columns: seq<(Column, int)>)

  datatype Failure = GenerationDim(dim: int) | RuntimeDim(dim: int) | ColumnDim(column: Column, dim: int)

  function ObservedColumns(db: Db, cs: seq<Column>): seq<(Column, int)> {
    if cs == [] then []
    else
      var c := cs[|cs| - 1];
      ObservedColumns(db, cs[..|cs| - 1])
      + if c in db.widths && db.widths[c] > 0 then [(c, db.widths[c])] else []
  }

  /** The catalog queries: the active generation by left join, the singleton, and the declared widths. */
  function Observe(db: Db, columns: seq<Column>, configured: int): Observation {
    Observation(configured,
      if db.runtime.Some? && db.runtime.value.activeGeneration in db.generations
      then Some(db.generations[db.runtime.value.activeGeneration]) else None,
      if db.runtime.Some? then Some(db.runtime.value.activeDimension) else None,
      ObservedColumns(db, columns))
  }

  function ColumnFailures(columns: seq<(Column, int)>, configured: int): seq<Failure> {
    if columns == [] then []
    else
      ColumnFailures(columns[..|columns| - 1], configured)
      + var c := columns[|columns| - 1]; if c.1 != configured then [ColumnDim(c.0, c.1)] else []
  }

  function Evaluate(obs: Observation): seq<Failure> {
    (if obs.generation.Some? && obs.generation.value != obs.configured
     then [GenerationDim(obs.generation.value)] else [])
    + (if obs.runtime.Some? && obs.runtime.value != obs.configured then [RuntimeDim(obs.runtime.value)] else [])
    + ColumnFailures(obs.columns, obs.configured)
  }

  method EvaluateEmbeddingDimension(obs: Observation) returns (failures: seq<Failure>)
    ensures failures == Evaluate(obs)
  {
    failures := [];
    if obs.generation.Some? && obs.generation.value != obs.configured {
      failures := failures + [GenerationDim(obs.generation.value)];
    }
    if obs.runtime.Some? && obs.runtime.value != obs.configured {
      failures := failures + [RuntimeDim(obs.runtime.value)];
    }
    ghost var head := failures;
    for i := 0 to |obs.columns|
      invariant failures == head + ColumnFailures(obs.columns[..i], obs.configured)
    {
      var c := obs.columns[i];
      assert obs.columns[..i + 1][..i] == obs.columns[..i];
      if c.1 != obs.configured {
        failures := failures + [ColumnDim(c.0, c.1)];
      }
    }
    assert obs.columns[..|obs.columns|] == obs.columns;
  }

  // ----- agreement

  /** What the script needs of the database it runs on: the columns exist and its own checks pass. */
  predicate Greenfield(db: Db, targets: seq<VectorTarget>) {
    Empty(db, targets) && Baseline(db) && Migrated(db, targets)
  }

  predicate Migrated(db: Db, targets: seq<VectorTarget>) {
    forall t :: t in targets ==> t.column in db.widths
  }

  /** No two targets share an index, so none of the rebuilt indexes replaces another. */
  predicate DistinctIndexes(targets: seq<VectorTarget>) {
    forall i, j :: 0 <= i < j < |targets| && targets[i].index.Some? && targets[j].index.Some? ==>
      NameOf(targets[i]) != NameOf(targets[j])
  }

  function WidthsAfter(widths: map<Column, int>, ts: seq<VectorTarget>, dim: int): map<Column, int> {
    if ts == [] then widths
    else WidthsAfter(widths, ts[..|ts| - 1], dim)[ts[|ts| - 1].column := dim]
  }

  function IndexesAfter(indexes: map<IndexName, Index>, ts: seq<VectorTarget>): map<IndexName, Index> {
    if ts == [] then indexes
    else
      var t := ts[|ts| - 1];
      var rest := IndexesAfter(indexes, ts[..|ts| - 1]);
      if t.index.Some? then rest[NameOf(t) := Index(t.column, t.where)] else rest
  }

  /** The database a committed resize leaves behind. */
  function Resized(db: Db, targets: seq<VectorTarget>, dim: int): Db {
    Db(WidthsAfter(db.widths, targets, dim), db.rows, IndexesAfter(db.indexes, targets),
       if 1 in db.generations then db.generations[1 := dim] else db.generations,
       if db.runtime.Some? then Some(db.runtime.value.(activeDimension := dim)) else None)
  }

  lemma {:induction false} ExecAppend(db: Db, a: seq<Statement>, b: seq<Statement>)
    ensures ExecAll(db, a + b) == if ExecAll(db, a).None? then None else ExecAll(ExecAll(db, a).value, b)
    decreases |a|
  {
    if a == [] {
      assert a + b == b;
    } else {
      assert (a + b)[1..] == a[1..] + b;
      if Exec(db, a[0]).Some? {
        ExecAppend(Exec(db, a[0]).value, a[1..], b);
      }
    }
  }

  lemma {:induction false} ExecOne(db: Db, s: Statement)
    ensures ExecAll(db, [s]) == Exec(db, s)
  {
    assert [s][1..] == [];
    if Exec(db, s).Some? {
      assert ExecAll(Exec(db, s).value, [s][1..]) == Exec(db, s);
    }
  }

  /** One target's statements succeed exactly on a width that its index can hold. */
  lemma {:induction false} ExecTarget(db: Db, t: VectorTarget, dim: int)
    requires t.column in db.widths
    ensures ExecAll(db, TargetStatements(t, dim)) ==
            if !(1 <= dim <= if t.index.Some? then MAX_HNSW_VECTOR_DIM else MAX_VECTOR_DIM) then None
            else Some(db.(widths := db.widths[t.column := dim],
                          indexes := if t.index.None? then db.indexes
                                     else db.indexes[NameOf(t) := Index(t.column, t.where)]))
  {
    var alter := AlterWidth(t.column, dim);
    if t.index.None? {
      assert TargetStatements(t, dim) == [alter];
      ExecOne(db, alter);
    } else {
      var drop, create := DropIndex(NameOf(t)), CreateIndex(NameOf(t), Index(t.column, t.where));
      assert TargetStatements(t, dim) == [drop] + ([alter] + [create]);
      var dropped := Exec(db, drop).value;
      ExecOne(db, drop);
      ExecAppend(db, [drop], [alter] + [create]);
      ExecOne(dropped, alter);
      ExecAppend(dropped, [alter], [create]);
      if Exec(dropped, alter).Some? {
        ExecOne(Exec(dropped, alter).value, create);
        assert (db.indexes - {NameOf(t)})[NameOf(t) := Index(t.column, t.where)]
            == db.indexes[NameOf(t) := Index(t.column, t.where)];
      }
    }
  }

  lemma {:induction false} WidthsAfterAt(widths: map<Column, int>, ts: seq<VectorTarget>, dim: int, c: Column)
    ensures c in WidthsAfter(widths, ts, dim) <==> c in widths || exists t :: t in ts && t.column == c
    ensures c in WidthsAfter(widths, ts, dim) ==>
              WidthsAfter(widths, ts, dim)[c] == if exists t :: t in ts && t.column == c then dim else widths[c]
  {
    if ts != [] {
      var front, t := ts[..|ts| - 1], ts[|ts| - 1];
      WidthsAfterAt(widths, front, dim, c);
      assert forall u :: u in ts <==> u in front || u == t;
    }
  }

  lemma {:induction false} IndexesAfterOther(indexes: map<IndexName, Index>, ts: seq<VectorTarget>, n: IndexName)
    requires forall t :: t in ts && t.index.Some? ==> NameOf(t) != n
    ensures n in IndexesAfter(indexes, ts) <==> n in indexes
    ensures n in indexes ==> IndexesAfter(indexes, ts)[n] == indexes[n]
  {
    if ts != [] {
      IndexesAfterOther(indexes, ts[..|ts| - 1], n);
    }
  }

  lemma {:induction false} IndexesAfterAt(indexes: map<IndexName, Index>, ts: seq<VectorTarget>, i: nat)
    requires i < |ts| && ts[i].index.Some? && DistinctIndexes(ts)
    ensures NameOf(ts[i]) in IndexesAfter(indexes, ts)
    ensures IndexesAfter(indexes, ts)[NameOf(ts[i])] == Index(ts[i].column, ts[i].where)
  {
    if i < |ts| - 1 {
      IndexesAfterAt(indexes, ts[..|ts| - 1], i);
      assert ts[|ts| - 1].index.Some? ==> NameOf(ts[i]) != NameOf(ts[|ts| - 1]);
    }
  }

  lemma {:induction false} ExecTargets(db: Db, ts: seq<VectorTarget>, dim: int)
    requires Migrated(db, ts) && 1 <= dim <= MAX_HNSW_VECTOR_DIM
    ensures ExecAll(db, AllTargetStatements(ts, dim)) ==
            Some(db.(widths := WidthsAfter(db.widths, ts, dim), indexes := IndexesAfter(db.indexes, ts)))
  {
    if ts != [] {
      var front, t := ts[..|ts| - 1], ts[|ts| - 1];
      ExecTargets(db, front, dim);
      ExecAppend(db, AllTargetStatements(front, dim), TargetStatements(t, dim));
      WidthsAfterAt(db.widths, front, dim, t.column);
      ExecTarget(ExecAll(db, AllTargetStatements(front, dim)).value, t, dim);
    }
  }

  lemma {:induction false} ExecTargetsFails(db: Db, ts: seq<VectorTarget>, dim: int)
    requires Migrated(db, ts) && !(1 <= dim <= MAX_HNSW_VECTOR_DIM)
    requires |ts| > 0 && ts[0].index.Some?
    ensures ExecAll(db, AllTargetStatements(ts, dim)).None?
  {
    var front, t := ts[..|ts| - 1], ts[|ts| - 1];
    ExecAppend(db, AllTargetStatements(front, dim), TargetStatements(t, dim));
    if front == [] {
      ExecTarget(db, t, dim);
    } else {
      ExecTargetsFails(db, front, dim);
    }
  }

  /** The statements run to the end exactly for the widths `validateDim` lets through, and then resize all of it. */
  lemma {:induction false} ResizeExactly(db: Db, targets: seq<VectorTarget>, dim: int)
    requires Migrated(db, targets) && |targets| > 0 && targets[0].index.Some?
    ensures ExecAll(db, ResizeStatements(targets, dim)) ==
            if 1 <= dim <= MAX_HNSW_VECTOR_DIM then Some(Resized(db, targets, dim)) else None
  {
    var first := AllTargetStatements(targets, dim);
    var generation, runtime := SetGenerationDimension(dim), SetRuntimeDimension(dim);
    assert [generation, runtime] == [generation] + [runtime];
    ExecAppend(db, first, [generation, runtime]);
    if 1 <= dim <= MAX_HNSW_VECTOR_DIM {
      ExecTargets(db, targets, dim);
      var after := ExecAll(db, first).value;
      ExecAppend(after, [generation], [runtime]);
      ExecOne(after, generation);
      ExecOne(Exec(after, generation).value, runtime);
    } else {
      ExecTargetsFails(db, targets, dim);
    }
  }

  /** What the resize changes, and that it changes nothing else. */
  lemma {:induction false} ResizedExactly(db: Db, targets: seq<VectorTarget>, dim: int)
    requires Greenfield(db, targets) && DistinctIndexes(targets)
    ensures var after := Resized(db, targets, dim);
            && after.rows == db.rows && after.widths.Keys == db.widths.Keys
            && after.generations.Keys == db.generations.Keys
            && (forall c :: c in db.widths ==>
                  after.widths[c] == if exists t :: t in targets && t.column == c then dim else db.widths[c])
            && (forall g :: g in db.generations ==> after.generations[g] == if g == 1 then dim else db.generations[g])
            && after.runtime == Some(Runtime(1, None, dim))
            && (forall t :: t in targets && t.index.Some? ==>
                  NameOf(t) in after.indexes && after.indexes[NameOf(t)] == Index(t.column, t.where))
            && (forall n :: (forall t :: t in targets && t.index.Some? ==> NameOf(t) != n) ==>
                  && (n in after.indexes <==> n in db.indexes)
                  && (n in db.indexes ==> after.indexes[n] == db.indexes[n]))
  {
    forall c ensures c in WidthsAfter(db.widths, targets, dim) <==> c in db.widths
             ensures c in db.widths ==>
                       (WidthsAfter(db.widths, targets, dim)[c]
                        == if exists t :: t in targets && t.column == c then dim else db.widths[c]) {
      WidthsAfterAt(db.widths, targets, dim, c);
    }
    forall t | t in targets && t.index.Some?
      ensures NameOf(t) in IndexesAfter(db.indexes, targets)
      ensures IndexesAfter(db.indexes, targets)[NameOf(t)] == Index(t.column, t.where) {
      var i :| 0 <= i < |targets| && targets[i] == t;
      IndexesAfterAt(db.indexes, targets, i);
    }
    forall n | forall t :: t in targets && t.index.Some? ==> NameOf(t) != n
      ensures n in IndexesAfter(db.indexes, targets) <==> n in db.indexes
      ensures n in db.indexes ==> IndexesAfter(db.indexes, targets)[n] == db.indexes[n] {
      IndexesAfterOther(db.indexes, targets, n);
    }
  }

  // ----- the preflight's verdict

  lemma {:induction false} NoColumnFailures(columns: seq<(Column, int)>, configured: int)
    ensures ColumnFailures(columns, configured) == [] <==> forall c :: c in columns ==> c.1 == configured
  {
    if columns != [] {
      var front, last := columns[..|columns| - 1], columns[|columns| - 1];
      NoColumnFailures(front, configured);
      assert forall c :: c in columns <==> c in front || c == last;
    }
  }

  lemma {:induction false} ObservedColumnsAre(db: Db, cs: seq<Column>, c: (Column, int))
    ensures c in ObservedColumns(db, cs) <==> c.0 in cs && c.0 in db.widths && db.widths[c.0] == c.1 > 0
  {
    if cs != [] {
      ObservedColumnsAre(db, cs[..|cs| - 1], c);
      assert cs == cs[..|cs| - 1] + [cs[|cs| - 1]];
    }
  }

  lemma {:induction false} ColumnFailuresAre(columns: seq<(Column, int)>, configured: int, f: Failure)
    ensures f in ColumnFailures(columns, configured) <==>
            f.ColumnDim? && (f.column, f.dim) in columns && f.dim != configured
  {
    if columns != [] {
      ColumnFailuresAre(columns[..|columns| - 1], configured, f);
      assert columns == columns[..|columns| - 1] + [columns[|columns| - 1]];
    }
  }

  /** A failure is reported if and only if the observation holds a width that is not the configured one, and says so. */
  lemma {:induction false} EvaluateExactly(obs: Observation, f: Failure)
    ensures f in Evaluate(obs) <==>
      f.dim != obs.configured &&
      match f
      case GenerationDim(dim) => obs.generation == Some(dim)
      case RuntimeDim(dim) => obs.runtime == Some(dim)
      case ColumnDim(column, dim) => (column, dim) in obs.columns
  {
    ColumnFailuresAre(obs.columns, obs.configured, f);
  }

  /** The preflight is silent exactly when every width the database records is the configured one. */
  lemma {:induction false} SilentExactly(db: Db, columns: seq<Column>, configured: int)
    ensures Evaluate(Observe(db, columns, configured)) == [] <==>
            && (db.runtime.Some? ==> db.runtime.value.activeDimension == configured)
            && (db.runtime.Some? && db.runtime.value.activeGeneration in db.generations ==>
                  db.generations[db.runtime.value.activeGeneration] == configured)
            && (forall c :: c in columns && c in db.widths && db.widths[c] > 0 ==> db.widths[c] == configured)
  {
    var seen := ObservedColumns(db, columns);
    NoColumnFailures(seen, configured);
    forall c
      ensures c in seen <==> c.0 in columns && c.0 in db.widths && db.widths[c.0] == c.1 > 0
    {
      ObservedColumnsAre(db, columns, c);
    }
    if forall c :: c in seen ==> c.1 == configured {
      forall c | c in columns && c in db.widths && db.widths[c] > 0
        ensures db.widths[c] == configured
      {
        assert (c, db.widths[c]) in seen;
      }
    }
  }

  ghost predicate Covered(columns: seq<Column>, targets: seq<VectorTarget>) {
    columns != [] && forall c :: c in columns ==> exists t :: t in targets && t.column == c
  }

  /** After a committed resize the preflight accepts exactly the configured dimension the script was given. */
  lemma {:induction false} ResizeAgreesWithPreflight(db: Db, targets: seq<VectorTarget>, columns: seq<Column>, dim: int,
                                                     configured: int, after: Db)
    requires Greenfield(db, targets) && |targets| > 0 && targets[0].index.Some? && Covered(columns, targets)
    requires ExecAll(db, ResizeStatements(targets, dim)) == Some(after)
    ensures Evaluate(Observe(after, columns, configured)) == [] <==> configured == dim
  {
    ResizeExactly(db, targets, dim);
    SilentExactly(after, columns, configured);
    forall c | c in columns
      ensures c in after.widths && after.widths[c] == dim
    {
      WidthsAfterAt(db.widths, targets, dim, c);
    }
  }

  /** The script's own targets and the preflight's own columns: widths from 1 to 2000, and then agreement. */
  lemma {:induction false} ScriptAgreesWithPreflight(db: Db, targets: seq<VectorTarget>, dim: int, configured: int)
    requires targets == TARGETS && Greenfield(db, targets)
    ensures var after := ExecAll(db, ResizeStatements(targets, dim));
      && (after.Some? <==> 1 <= dim <= 2000)
      && (after.Some? ==> (Evaluate(Observe(after.value, OBSERVED, configured)) == [] <==> configured == dim))
  {
    ListedTargets();
    ListedColumns();
    ResizeExactly(db, targets, dim);
    if 1 <= dim <= MAX_HNSW_VECTOR_DIM {
      ResizeAgreesWithPreflight(db, targets, OBSERVED, dim, configured, Resized(db, targets, dim));
    }
  }

  /** The targets the script lists meet what the theorems above ask of them. */
  lemma {:induction false} ListedTargets()
    ensures |TARGETS| > 0 && TARGETS[0].index.Some? && DistinctIndexes(TARGETS)
  {
    var ts := TARGETS;
    assert ts[0].index.value[1] == 'h' && ts[1].index.value[1] == 'd' && ts[2].index.value[1] == 'o';
  }

  lemma {:induction false} ListedColumns()
    ensures Covered(OBSERVED, TARGETS)
    ensures forall t :: t in TARGETS ==> t.column in OBSERVED
  {
    forall i | 0 <= i < 4
      ensures OBSERVED[i] == TARGETS[i].column && TARGETS[i] in TARGETS && OBSERVED[i] in OBSERVED
    {
    }
  }

  /** On the indexes that the migrations have made, the resize rebuilds each as it was, and leaves the others alone. */
  lemma {:induction false} IndexesRestored(db: Db, targets: seq<VectorTarget>, dim: int)
    requires targets == TARGETS && forall n :: n in MIGRATED ==> n in db.indexes && db.indexes[n] == MIGRATED[n]
    ensures Resized(db, targets, dim).indexes == db.indexes
  {
    var after := IndexesAfter(db.indexes, targets);
    ListedTargets();
    forall n
      ensures n in after <==> n in db.indexes
      ensures n in after ==> after[n] == db.indexes[n]
    {
      if i: nat :| i < |targets| && targets[i].index.Some? && NameOf(targets[i]) == n {
        IndexesAfterAt(db.indexes, targets, i);
        MigratedIndex(i);
      } else {
        IndexesAfterOther(db.indexes, targets, n);
      }
    }
  }

  lemma {:induction false} MigratedIndex(i: nat)
    requires i < |TARGETS| && TARGETS[i].index.Some?
    ensures NameOf(TARGETS[i]) in MIGRATED
    ensures MIGRATED[NameOf(TARGETS[i])] == Index(TARGETS[i].column, TARGETS[i].where)
  {
    ListedTargets();
    var ts := TARGETS;
    assert ts[0].index.value[1] == 'h' && ts[1].index.value[1] == 'd' && ts[2].index.value[1] == 'o';
  }
}
