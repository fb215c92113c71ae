/** The per-factor metadata that the formula engine records while it
    materialises a design, and the resolver that reduces the records of one
    variable to a single attribute value. The resolver's own rule is not part
    of this model: it enters as a parameter (a `Resolver` value). */
module Metadata {

  datatype Option<+T> = None | Some(value: T)

  /** The value domain of a factor. */
  datatype Kind = Categorical | Numerical

  /** One snapshot of one evaluation of one factor. `base` is `None` for
      encodings without a single baseline (full rank, sum to zero). */
  datatype FactorMetadata = FactorMetadata(
    kind: Kind,
    categories: seq<string>,
    base: Option<string>,
    reducedRank: bool)

  /** The attributes the resolver is asked about. */
  datatype Attribute = KindAttribute | BaseAttribute | CategoriesAttribute

  /** What the resolver answers: one agreed value, or a disagreement. */
  datatype Resolution<+T> = Resolved(value: T) | Ambiguous

  /** The resolver, one uninterpreted function per attribute. */
  datatype Resolver = Resolver(
    kind: seq<FactorMetadata> -> Resolution<Kind>,
    base: seq<FactorMetadata> -> Resolution<Option<string>>,
    categories: seq<FactorMetadata> -> Resolution<seq<string>>)

  /** Factor name to the snapshots recorded for it, in evaluation order. */
  type Storage = map<string, seq<FactorMetadata>>

  /** The snapshots of factor `f`; a factor never recorded has none. */
  function Entries(storage: Storage, f: string): seq<FactorMetadata>
  {
    if f in storage then storage[f] else []
  }

  /** The only evidence of the resolver's rule for `base`: a reduced-rank
      snapshot with a real baseline, together with any snapshot of another
      baseline (a full-rank one has none), leaves the baseline unresolved.
      Used as a hypothesis, never as a definition. */
  ghost predicate ObservedBaseAmbiguity(resolver: Resolver)
  {
    forall meta: seq<FactorMetadata>, i, j ::
      0 <= i < |meta| && 0 <= j < |meta| && meta[i].reducedRank && meta[i].base.Some? &&
      meta[i].base != meta[j].base ==>
        resolver.base(meta) == Ambiguous
  }

  /** A baseline rule that keeps a baseline only when every snapshot agrees
      on it; with no snapshots there is none. */
  function AgreedBase(meta: seq<FactorMetadata>): Resolution<Option<string>>
  {
    if meta == [] then Resolved(None)
    else if forall k :: 0 <= k < |meta| ==> meta[k].base == meta[0].base then Resolved(meta[0].base)
    else Ambiguous
  }

  /** The hypothesis does not rule out such a resolver: the agreement rule
      meets it, whatever the rules for kind and categories. */
  lemma AgreedBaseMeetsObservation(kind: seq<FactorMetadata> -> Resolution<Kind>,
                                   categories: seq<FactorMetadata> -> Resolution<seq<string>>)
    ensures ObservedBaseAmbiguity(Resolver(kind, AgreedBase, categories))
  {
    forall meta: seq<FactorMetadata>, i, j |
      0 <= i < |meta| && 0 <= j < |meta| && meta[i].reducedRank && meta[i].base.Some? &&
      meta[i].base != meta[j].base
      ensures AgreedBase(meta) == Ambiguous
    {
      assert meta[i].base != meta[0].base || meta[j].base != meta[0].base;
    }
  }
}
