/**
 The data types of the vector store (src/model.rs): the collection registry,
 collections, embeddings, distance kinds and the registry's error values.
 */
module Model {

  /** A 32-bit float, carried as its IEEE-754 bit pattern. The model never
      computes with vector components; it only stores and passes them on. */
  type F32 = bv32

  /** A `usize` on a 64-bit target. */
  const USIZE_MAX: int := 0xFFFF_FFFF_FFFF_FFFF
  type Usize = x: int | 0 <= x <= USIZE_MAX

  type Vector = seq<F32>

  /** A string to string dictionary (Rust's `HashMap<String, String>`). */
  type StringMap = map<string, string>

  datatype Option<+T> = None | Some(value: T)

  datatype Result<+T, +E> = Ok(value: T) | Err(error: E)

  /** The three distance kinds a collection can be created with. */
  datatype Distance = Euclidean | Cosine | DotProduct

  /** An embedding: its identifier is a whole dictionary, its metadata is
      optional (so `None` and `Some(map[])` are different embeddings). */
  datatype Embedding = Embedding(id: StringMap, vector: Vector, metadata: Option<StringMap>)

  /** A collection: its dimension, its distance kind and its embeddings in
      insertion order. */
  datatype Collection = Collection(dimension: Usize, distance: Distance, embeddings: seq<Embedding>)

  /** The registry's content: at most one collection per name. */
  type Collections = map<string, Collection>

  /** A search hit: the score and a copy of the stored embedding. */
  datatype SimilarityResult = SimilarityResult(score: int, embedding: Embedding)

  datatype Error =
    | UniqueViolation
    | EmbeddingUniqueViolation
    | NotFound
    | DimensionMismatch
    | LoggerInitializationError

  /** Some stored embedding has identifier `id`. */
  predicate HasId(embeddings: seq<Embedding>, id: StringMap) {
    exists i :: 0 <= i < |embeddings| && embeddings[i].id == id
  }

  /** No two stored embeddings share an identifier. */
  ghost predicate IdsDistinct(embeddings: seq<Embedding>) {
    forall i, j :: 0 <= i < j < |embeddings| ==> embeddings[i].id != embeddings[j].id
  }

  /** Every stored vector of a non-Cosine collection has the collection's
      dimension (Cosine collections store the output of `normalize`, whose
      length the model does not know). */
  ghost predicate LengthsMatch(c: Collection) {
    c.distance != Cosine ==>
      forall i :: 0 <= i < |c.embeddings| ==> |c.embeddings[i].vector| == c.dimension
  }

  ghost predicate WellFormed(c: Collection) {
    IdsDistinct(c.embeddings) && LengthsMatch(c)
  }

  ghost predicate AllWellFormed(db: Collections) {
    forall name :: name in db ==> WellFormed(db[name])
  }
}
