/**
 The registry operations of `CacheDB` (src/db.rs) as functions from the
 current collection map to the result returned and the map left behind.
 The class `Db.CacheDB` is proved to behave exactly as these functions say.
 */
module Registry {
  import opened Model

  /** What an operation returns, together with the collection map it leaves. */
  datatype Applied<+T, +E> = Applied(result: Result<T, E>, db: Collections)

  /** `normalize` from the similarity module, which is not part of this model. */
  type Normalize = Vector -> Vector

  /** The embedding as a collection with distance `distance` stores it:
      Cosine collections store the normalized vector, the others store the
      embedding verbatim. */
  function Stored(distance: Distance, e: Embedding, normalize: Normalize): (s: Embedding)
    ensures s.id == e.id && s.metadata == e.metadata
    ensures distance == Cosine ==> s.vector == normalize(e.vector)
    ensures distance != Cosine ==> s == e
  {
    if distance == Cosine then e.(vector := normalize(e.vector)) else e
  }

  /** The stored forms of a batch, in batch order. */
  function StoredAll(distance: Distance, batch: seq<Embedding>, normalize: Normalize): (s: seq<Embedding>)
    ensures |s| == |batch|
    ensures forall i :: 0 <= i < |batch| ==> s[i] == Stored(distance, batch[i], normalize)
  {
    seq(|batch|, i requires 0 <= i < |batch| => Stored(distance, batch[i], normalize))
  }

  /** `get_collection`. */
  function Get(db: Collections, name: string): (r: Option<Collection>)
    ensures r.Some? <==> name in db
    ensures r.Some? ==> r.value == db[name]
  {
    if name in db then Some(db[name]) else None
  }

  /** `create_collection`: refuses a taken name; otherwise adds an empty
      collection under exactly that name and returns it. The dimension is
      not checked (0 is accepted). */
  function Create(db: Collections, name: string, dimension: Usize, distance: Distance): (a: Applied<Collection, Error>)
    ensures name in db ==> a.result == Err(UniqueViolation) && a.db == db
    ensures name !in db ==> a.result == Ok(Collection(dimension, distance, []))
    ensures name !in db ==> a.db.Keys == db.Keys + {name} && a.db[name] == Collection(dimension, distance, [])
    ensures forall n :: n in db && n != name ==> n in a.db && a.db[n] == db[n]
  {
    if name in db then Applied(Err(UniqueViolation), db)
    else
      var c := Collection(dimension, distance, []);
      Applied(Ok(c), db[name := c])
  }

  /** `delete_collection`: `NotFound` for an absent name; otherwise removes
      exactly that key. */
  function Delete(db: Collections, name: string): (a: Applied<(), Error>)
    ensures name !in db ==> a.result == Err(NotFound) && a.db == db
    ensures name in db ==> a.result == Ok(()) && a.db.Keys == db.Keys - {name}
    ensures forall n :: n in a.db ==> n in db && a.db[n] == db[n]
  {
    if name !in db then Applied(Err(NotFound), db) else Applied(Ok(()), db - {name})
  }

  /** `insert_into_collection`: the three checks in their order, then an
      append at the end of the named collection. */
  function Insert(db: Collections, name: string, e: Embedding, normalize: Normalize): (a: Applied<(), Error>)
    ensures name !in db ==> a.result == Err(NotFound)
    ensures name in db && HasId(db[name].embeddings, e.id) ==> a.result == Err(UniqueViolation)
    ensures name in db && !HasId(db[name].embeddings, e.id) && |e.vector| != db[name].dimension ==>
              a.result == Err(DimensionMismatch)
    ensures a.result.Ok? <==>
              name in db && !HasId(db[name].embeddings, e.id) && |e.vector| == db[name].dimension
    ensures a.result.Err? ==> a.db == db
    ensures a.result.Ok? ==>
              && a.db.Keys == db.Keys
              && a.db[name].dimension == db[name].dimension
              && a.db[name].distance == db[name].distance
              && a.db[name].embeddings == db[name].embeddings + [Stored(db[name].distance, e, normalize)]
    ensures forall n :: n in db && n != name ==> n in a.db && a.db[n] == db[n]
  {
    if name !in db then Applied(Err(NotFound), db)
    else
      var c := db[name];
      if HasId(c.embeddings, e.id) then Applied(Err(UniqueViolation), db)
      else if |e.vector| != c.dimension then Applied(Err(DimensionMismatch), db)
      else Applied(Ok(()), db[name := c.(embeddings := c.embeddings + [Stored(c.distance, e, normalize)])])
  }

  /** The loop of `update_collection` on the collection it holds: each item
      is checked against everything stored so far (earlier items of the
      batch included) and appended; the first failure stops the loop and
      keeps what was appended before it. */
  function AppendBatch(c: Collection, batch: seq<Embedding>, normalize: Normalize): (r: (Collection, Result<(), Error>))
    ensures r.0.dimension == c.dimension && r.0.distance == c.distance
    ensures c.embeddings <= r.0.embeddings
    ensures |r.0.embeddings| <= |c.embeddings| + |batch|
    ensures r.1.Ok? ==> r.0.embeddings == c.embeddings + StoredAll(c.distance, batch, normalize)
    ensures r.1.Err? ==> r.1.error == UniqueViolation || r.1.error == DimensionMismatch
    decreases |batch|
  {
    if batch == [] then (c, Ok(()))
    else if HasId(c.embeddings, batch[0].id) then (c, Err(UniqueViolation))
    else if |batch[0].vector| != c.dimension then (c, Err(DimensionMismatch))
    else
      var c' := c.(embeddings := c.embeddings + [Stored(c.distance, batch[0], normalize)]);
      var r := AppendBatch(c', batch[1..], normalize);
      assert StoredAll(c.distance, batch, normalize)
          == [Stored(c.distance, batch[0], normalize)] + StoredAll(c.distance, batch[1..], normalize);
      r
  }

  /** `update_collection`: `NotFound` for an absent name, otherwise the
      batch loop on that collection. Not atomic. */
  function Update(db: Collections, name: string, batch: seq<Embedding>, normalize: Normalize): (a: Applied<(), Error>)
    ensures name !in db ==> a.result == Err(NotFound) && a.db == db
    ensures name in db ==> a.db.Keys == db.Keys
    ensures forall n :: n in db && n != name ==> n in a.db && a.db[n] == db[n]
    ensures name in db && a.result.Ok? ==>
              a.db[name].embeddings == db[name].embeddings + StoredAll(db[name].distance, batch, normalize)
    ensures name in db && batch == [] ==> a == Applied(Ok(()), db)
  {
    if name !in db then Applied(Err(NotFound), db)
    else
      var r := AppendBatch(db[name], batch, normalize);
      assert batch == [] ==> db[name := r.0] == db;
      Applied(r.1, db[name := r.0])
  }

  /** A batch applied as separate `insert_into_collection` calls, stopping
      at the first error: the reference against which `Update` is proved. */
  function InsertEach(db: Collections, name: string, batch: seq<Embedding>, normalize: Normalize): Applied<(), Error>
    decreases |batch|
  {
    if batch == [] then Applied(Ok(()), db)
    else
      var a := Insert(db, name, batch[0], normalize);
      if a.result.Err? then a else InsertEach(a.db, name, batch[1..], normalize)
  }

  /** On an existing collection, a batch update is exactly the sequence of
      single inserts of its items, stopping at the first failure. */
  lemma {:induction false} UpdateIsInsertSequence(db: Collections, name: string, batch: seq<Embedding>, normalize: Normalize)
    requires name in db
    ensures Update(db, name, batch, normalize) == InsertEach(db, name, batch, normalize)
    decreases |batch|
  {
    if batch != [] {
      var a := Insert(db, name, batch[0], normalize);
      if a.result.Ok? {
        UpdateIsInsertSequence(a.db, name, batch[1..], normalize);
        assert a.db[name := AppendBatch(a.db[name], batch[1..], normalize).0]
            == db[name := AppendBatch(a.db[name], batch[1..], normalize).0];
      }
    }
  }

  /** The insert-by-insert form of a failed update: the items before the
      failing one were each inserted, and the failing insert changed nothing. */
  lemma {:induction false} InsertEachFailureKeepsPrefix(db: Collections, name: string, batch: seq<Embedding>, normalize: Normalize)
    requires InsertEach(db, name, batch, normalize).result.Err?
    ensures exists i :: 0 <= i < |batch| &&
              var before := InsertEach(db, name, batch[..i], normalize);
              && before.result.Ok?
              && InsertEach(db, name, batch, normalize).db == before.db
              && Insert(before.db, name, batch[i], normalize).result == InsertEach(db, name, batch, normalize).result
    decreases |batch|
  {
    var a := Insert(db, name, batch[0], normalize);
    if a.result.Err? {
      assert batch[..0] == [];
      assert InsertEach(db, name, batch[..0], normalize).db == db;
    } else {
      InsertEachFailureKeepsPrefix(a.db, name, batch[1..], normalize);
      var j :| 0 <= j < |batch[1..]| &&
              var before := InsertEach(a.db, name, batch[1..][..j], normalize);
              && before.result.Ok?
              && InsertEach(a.db, name, batch[1..], normalize).db == before.db
              && Insert(before.db, name, batch[1..][j], normalize).result == InsertEach(a.db, name, batch[1..], normalize).result;
      assert batch[..j + 1][0] == batch[0] && batch[..j + 1][1..] == batch[1..][..j];
      assert InsertEach(db, name, batch[..j + 1], normalize) == InsertEach(a.db, name, batch[1..][..j], normalize);
      assert batch[1..][j] == batch[j + 1];
    }
  }

  /** Update is not atomic: when it fails, some item `i` is the one that
      failed, the items before it stay appended exactly as a successful
      update with them alone would have left them, and the failure is the
      one a single insert of item `i` reports. */
  lemma UpdateFailureKeepsPrefix(db: Collections, name: string, batch: seq<Embedding>, normalize: Normalize)
    requires name in db
    requires Update(db, name, batch, normalize).result.Err?
    ensures exists i :: 0 <= i < |batch| &&
              var before := Update(db, name, batch[..i], normalize);
              && before.result.Ok?
              && Update(db, name, batch, normalize).db == before.db
              && Insert(before.db, name, batch[i], normalize).result == Update(db, name, batch, normalize).result
  {
    UpdateIsInsertSequence(db, name, batch, normalize);
    InsertEachFailureKeepsPrefix(db, name, batch, normalize);
    var i :| 0 <= i < |batch| &&
              var before := InsertEach(db, name, batch[..i], normalize);
              && before.result.Ok?
              && InsertEach(db, name, batch, normalize).db == before.db
              && Insert(before.db, name, batch[i], normalize).result == InsertEach(db, name, batch, normalize).result;
    UpdateIsInsertSequence(db, name, batch[..i], normalize);
  }

  /** A successful update grows the collection by exactly the batch size. */
  lemma UpdateCount(db: Collections, name: string, batch: seq<Embedding>, normalize: Normalize)
    requires name in db
    requires Update(db, name, batch, normalize).result.Ok?
    ensures |Update(db, name, batch, normalize).db[name].embeddings| == |db[name].embeddings| + |batch|
  {
  }

  /** Creating a fresh name and then looking it up gives back the empty
      collection with the requested dimension and distance; creating it a
      second time fails with `UniqueViolation` and changes nothing. */
  lemma CreateThenGet(db: Collections, name: string, dimension: Usize, distance: Distance)
    requires name !in db
    ensures Get(Create(db, name, dimension, distance).db, name) == Some(Collection(dimension, distance, []))
    ensures var after := Create(db, name, dimension, distance).db;
            Create(after, name, dimension, distance) == Applied(Err(UniqueViolation), after)
  {
  }

  /** Deleting a collection right after creating it restores the registry. */
  lemma DeleteUndoesCreate(db: Collections, name: string, dimension: Usize, distance: Distance)
    requires name !in db
    ensures Delete(Create(db, name, dimension, distance).db, name) == Applied(Ok(()), db)
  {
    assert Create(db, name, dimension, distance).db - {name} == db;
  }

  /** The registry never produces `EmbeddingUniqueViolation` or
      `LoggerInitializationError`. */
  lemma UnusedErrors(db: Collections, name: string, dimension: Usize, distance: Distance,
                     e: Embedding, batch: seq<Embedding>, normalize: Normalize)
    ensures Create(db, name, dimension, distance).result !in {Err(EmbeddingUniqueViolation), Err(LoggerInitializationError)}
    ensures Delete(db, name).result !in {Err(EmbeddingUniqueViolation), Err(LoggerInitializationError)}
    ensures Insert(db, name, e, normalize).result !in {Err(EmbeddingUniqueViolation), Err(LoggerInitializationError)}
    ensures Update(db, name, batch, normalize).result !in {Err(EmbeddingUniqueViolation), Err(LoggerInitializationError)}
  {
  }

  /** Appending an embedding whose id is new keeps a collection well formed,
      provided a non-Cosine collection receives a vector of its dimension. */
  lemma AppendPreservesWellFormed(c: Collection, e: Embedding, normalize: Normalize)
    requires WellFormed(c)
    requires !HasId(c.embeddings, e.id) && |e.vector| == c.dimension
    ensures WellFormed(c.(embeddings := c.embeddings + [Stored(c.distance, e, normalize)]))
  {
    var s := c.embeddings + [Stored(c.distance, e, normalize)];
    forall i, j | 0 <= i < j < |s| ensures s[i].id != s[j].id {
      if j == |s| - 1 {
        assert s[i] == c.embeddings[i];
      }
    }
  }

  /** Every registry operation keeps identifiers distinct within each
      collection, and keeps stored vectors of non-Cosine collections at the
      collection's dimension. */
  lemma InsertPreservesWellFormed(db: Collections, name: string, e: Embedding, normalize: Normalize)
    requires AllWellFormed(db)
    ensures AllWellFormed(Insert(db, name, e, normalize).db)
  {
    if Insert(db, name, e, normalize).result.Ok? {
      AppendPreservesWellFormed(db[name], e, normalize);
    }
  }

  lemma {:induction false} AppendBatchPreservesWellFormed(c: Collection, batch: seq<Embedding>, normalize: Normalize)
    requires WellFormed(c)
    ensures WellFormed(AppendBatch(c, batch, normalize).0)
    decreases |batch|
  {
    if batch != [] && !HasId(c.embeddings, batch[0].id) && |batch[0].vector| == c.dimension {
      AppendPreservesWellFormed(c, batch[0], normalize);
      AppendBatchPreservesWellFormed(
        c.(embeddings := c.embeddings + [Stored(c.distance, batch[0], normalize)]), batch[1..], normalize);
    }
  }

  lemma UpdatePreservesWellFormed(db: Collections, name: string, batch: seq<Embedding>, normalize: Normalize)
    requires AllWellFormed(db)
    ensures AllWellFormed(Update(db, name, batch, normalize).db)
  {
    if name in db {
      AppendBatchPreservesWellFormed(db[name], batch, normalize);
    }
  }

  lemma CreateDeletePreserveWellFormed(db: Collections, name: string, dimension: Usize, distance: Distance)
    requires AllWellFormed(db)
    ensures AllWellFormed(Create(db, name, dimension, distance).db)
    ensures AllWellFormed(Delete(db, name).db)
  {
  }
}
