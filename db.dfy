/**
 `CacheDB` (src/db.rs): the registry object whose methods change its
 collection map in place. Each method is proved to return and leave behind
 exactly what the corresponding `Registry` function says, and to keep the
 registry well formed.
 */
module Db {
  import opened Model
  import opened Registry

  class CacheDB {
    var collections: Collections

    /** Identifiers are distinct within each collection, and non-Cosine
        collections store vectors of their dimension. */
    ghost predicate Valid()
      reads this
    {
      AllWellFormed(collections)
    }

    /** `CacheDB::new`: no collections. */
    constructor ()
      ensures Valid()
      ensures collections == map[]
    {
      collections := map[];
    }

    method CreateCollection(name: string, dimension: Usize, distance: Distance) returns (r: Result<Collection, Error>)
      requires Valid()
      modifies this
      ensures Valid()
      ensures Applied(r, collections) == Create(old(collections), name, dimension, distance)
    {
      if name in collections {
        return Err(UniqueViolation);
      }
      var collection := Collection(dimension, distance, []);
      collections := collections[name := collection];
      r := Ok(collection);
    }

    method DeleteCollection(name: string) returns (r: Result<(), Error>)
      requires Valid()
      modifies this
      ensures Valid()
      ensures Applied(r, collections) == Delete(old(collections), name)
    {
      if name !in collections {
        return Err(NotFound);
      }
      collections := collections - {name};
      r := Ok(());
    }

    method InsertIntoCollection(name: string, embedding: Embedding, normalize: Normalize) returns (r: Result<(), Error>)
      requires Valid()
      modifies this
      ensures Valid()
      ensures Applied(r, collections) == Insert(old(collections), name, embedding, normalize)
    {
      if name !in collections {
        return Err(NotFound);
      }
      var collection := collections[name];
      if HasId(collection.embeddings, embedding.id) {
        return Err(UniqueViolation);
      }
      if |embedding.vector| != collection.dimension {
        return Err(DimensionMismatch);
      }
      var stored := embedding;
      if collection.distance == Cosine {
        stored := stored.(vector := normalize(stored.vector));
      }
      InsertPreservesWellFormed(collections, name, embedding, normalize);
      collections := collections[name := collection.(embeddings := collection.embeddings + [stored])];
      r := Ok(());
    }

    method UpdateCollection(name: string, batch: seq<Embedding>, normalize: Normalize) returns (r: Result<(), Error>)
      requires Valid()
      modifies this
      ensures Valid()
      ensures Applied(r, collections) == Update(old(collections), name, batch, normalize)
    {
      if name !in collections {
        return Err(NotFound);
      }
      for i := 0 to |batch|
        invariant name in collections
        invariant collections == old(collections)[name := collections[name]]
        invariant AppendBatch(collections[name], batch[i..], normalize)
               == AppendBatch(old(collections)[name], batch, normalize)
        invariant Valid()
      {
        var collection := collections[name];
        var embedding := batch[i];
        if HasId(collection.embeddings, embedding.id) {
          return Err(UniqueViolation);
        }
        if |embedding.vector| != collection.dimension {
          return Err(DimensionMismatch);
        }
        if collection.distance == Cosine {
          embedding := embedding.(vector := normalize(embedding.vector));
        }
        AppendPreservesWellFormed(collection, batch[i], normalize);
        collections := collections[name := collection.(embeddings := collection.embeddings + [embedding])];
        assert batch[i..][1..] == batch[i + 1..];
      }
      r := Ok(());
    }

    /** `get_collection`: the collection stored under `name`, if any. */
    function GetCollection(name: string): (r: Option<Collection>)
      reads this
      ensures r.Some? <==> name in collections
      ensures r.Some? ==> r.value == collections[name]
      ensures Valid() && r.Some? ==> WellFormed(r.value)
    {
      Get(collections, name)
    }
  }
}
