/** The contrast builder: it completes a caller's partial assignment of
    values to the model's variables, hands the completed assignment to the
    design for re-evaluation, and takes differences of the resulting rows.
    Formula parsing and design materialisation belong to the external formula
    engine; here the design is a value carrying its column names, its
    variables and an abstract evaluator. */
module Contrasts {
  import opened Metadata

  /** A value a variable can take: a category label or a number. */
  datatype Value = Str(s: string) | Num(x: real)

  /** Variable name to value, the keyword arguments of `cond`. */
  type Assignment = map<string, Value>

  /** One row of the design matrix, aligned to its columns. */
  type Row = seq<real>

  /** Stands in for an omitted categorical variable that has no baseline;
      no real category is expected to be the NUL character. */
  const Sentinel: string := "\0"

  /** The ways `cond` and `contrast` fail. */
  datatype CondError =
    | MissingFactorStorage                  // the builder holds no factor storage
    | UnknownVariable                       // a supplied key is not a model variable
    | AmbiguousAttribute(attribute: Attribute)  // the resolver disagreed on kind or categories
    | UnresolvableBase(variable: string)    // an omitted variable's baseline is ambiguous
    | InvalidCategory(variable: string)     // a supplied value is not one of the categories

  datatype Result<+T> = Ok(value: T) | Err(error: CondError)

  datatype Outcome = Pass | Fail(error: CondError)

  /** The materialised design: its column names, the variables it was built
      from (a set, listed once each) and its single-row re-evaluation. */
  datatype Design = Design(
    columns: seq<string>,
    variables: seq<string>,
    evaluate: Assignment -> Row)

  ghost predicate Distinct(s: seq<string>)
  {
    forall i, j :: 0 <= i < j < |s| ==> s[i] != s[j]
  }

  /** What the formula engine guarantees of a design: the variables form a set
      and every re-evaluation yields exactly one entry per column. */
  ghost predicate WellFormed(design: Design)
  {
    && Distinct(design.variables)
    && forall a :: |design.evaluate(a)| == |design.columns|
  }

  /** Python's `value in categories` on a list of labels. */
  predicate InCategories(value: Value, categories: seq<string>)
  {
    value.Str? && value.s in categories
  }

  // ---------------------------------------------------------------------
  // The metadata of one variable: its factors' snapshots, chained in order

  function Chain(storage: Storage, factors: seq<string>): seq<FactorMetadata>
  {
    if factors == [] then [] else Entries(storage, factors[0]) + Chain(storage, factors[1..])
  }

  /** The number of snapshots recorded for the given factors together. */
  function TotalEntries(storage: Storage, factors: seq<string>): nat
  {
    if factors == [] then 0 else |Entries(storage, factors[0])| + TotalEntries(storage, factors[1..])
  }

  /** The chained list is as long as all the factors' lists together. */
  lemma {:induction false} ChainLength(storage: Storage, factors: seq<string>)
    ensures |Chain(storage, factors)| == TotalEntries(storage, factors)
  {
    if factors != [] {
      ChainLength(storage, factors[1..]);
    }
  }

  /** Chaining the factors of two lists one after the other is chaining each
      list and concatenating. */
  lemma {:induction false} ChainAppend(storage: Storage, first: seq<string>, second: seq<string>)
    ensures Chain(storage, first + second) == Chain(storage, first) + Chain(storage, second)
  {
    if first != [] {
      assert (first + second)[0] == first[0];
      assert (first + second)[1..] == first[1..] + second;
      ChainAppend(storage, first[1..], second);
    } else {
      assert first + second == second;
    }
  }

  /** Factor `factors[i]`'s snapshots sit, unchanged and in their own order,
      right after those of the factors before it. */
  lemma ChainSlice(storage: Storage, factors: seq<string>, i: nat)
    requires i < |factors|
    ensures var offset := TotalEntries(storage, factors[..i]);
            var own := Entries(storage, factors[i]);
            && offset + |own| <= |Chain(storage, factors)|
            && Chain(storage, factors)[offset..offset + |own|] == own
  {
    var before, own, after := Chain(storage, factors[..i]), Entries(storage, factors[i]), Chain(storage, factors[i + 1..]);
    assert factors == factors[..i] + factors[i..];
    ChainAppend(storage, factors[..i], factors[i..]);
    assert factors[i..][0] == factors[i] && factors[i..][1..] == factors[i + 1..];
    assert Chain(storage, factors[i..]) == own + after;
    ChainLength(storage, factors[..i]);
    assert Chain(storage, factors) == before + (own + after);
    assert (before + (own + after))[|before|..|before| + |own|] == own;
  }

  /** A snapshot belongs to a variable's metadata exactly when it was
      recorded for one of the variable's factors. */
  lemma {:induction false} ChainMembership(storage: Storage, factors: seq<string>, m: FactorMetadata)
    ensures m in Chain(storage, factors) <==>
            exists i :: 0 <= i < |factors| && m in Entries(storage, factors[i])
  {
    if factors != [] {
      ChainMembership(storage, factors[1..], m);
      if m in Chain(storage, factors[1..]) {
        var i :| 0 <= i < |factors[1..]| && m in Entries(storage, factors[1..][i]);
        assert factors[i + 1] == factors[1..][i];
      }
      if exists i :: 0 <= i < |factors| && m in Entries(storage, factors[i]) {
        var i :| 0 <= i < |factors| && m in Entries(storage, factors[i]);
        if i > 0 {
          assert factors[1..][i - 1] == factors[i];
        }
      }
    }
  }

  /** Elementwise difference of two aligned rows. */
  function Difference(x: Row, y: Row): Row
    requires |x| == |y|
  {
    seq(|x|, i requires 0 <= i < |x| => x[i] - y[i])
  }

  // ---------------------------------------------------------------------
  // The builder

  class FormulaicContrasts {
    const factorStorage: Option<Storage>
    const variableToFactors: map<string, seq<string>>
    const design: Design
    const resolver: Resolver

    ghost predicate Valid()
    {
      WellFormed(design)
    }

    /** Holds what materialising the formula produced: the factor storage,
        the variable-to-factors map and the design, plus the resolver. */
    constructor (factorStorage: Option<Storage>, variableToFactors: map<string, seq<string>>,
                 design: Design, resolver: Resolver)
      requires WellFormed(design)
      ensures Valid()
      ensures this.factorStorage == factorStorage && this.variableToFactors == variableToFactors
      ensures this.design == design && this.resolver == resolver
    {
      this.factorStorage := factorStorage;
      this.variableToFactors := variableToFactors;
      this.design := design;
      this.resolver := resolver;
    }

    predicate IsVariable(v: string)
    {
      v in design.variables
    }

    /** The factors that reference `v`; a variable without any has none. */
    function FactorsOf(v: string): seq<string>
    {
      if v in variableToFactors then variableToFactors[v] else []
    }

    function FactorMetadataFor(v: string): seq<FactorMetadata>
      requires factorStorage.Some?
    {
      Chain(factorStorage.value, FactorsOf(v))
    }

    /** The value `cond` substitutes for an omitted variable. */
    function DefaultValue(v: string): Result<Value>
      requires factorStorage.Some?
    {
      var meta := FactorMetadataFor(v);
      match resolver.kind(meta)
      case Ambiguous => Err(AmbiguousAttribute(KindAttribute))
      case Resolved(Categorical) =>
        (match resolver.base(meta)
         case Ambiguous => Err(UnresolvableBase(v))
         case Resolved(Some(b)) => Ok(Str(b))
         case Resolved(None) => Ok(Str(Sentinel)))
      case Resolved(Numerical) => Ok(Num(0.0))
    }

    /** The validation `cond` applies to a supplied value. The categories are
        resolved first, even for a numeric variable. */
    function CheckCategory(v: string, value: Value): Outcome
      requires factorStorage.Some?
    {
      var meta := FactorMetadataFor(v);
      match resolver.categories(meta)
      case Ambiguous => Fail(AmbiguousAttribute(CategoriesAttribute))
      case Resolved(categories) =>
        match resolver.kind(meta)
        case Ambiguous => Fail(AmbiguousAttribute(KindAttribute))
        case Resolved(kind) =>
          if kind == Categorical && !InCategories(value, categories)
          then Fail(InvalidCategory(v)) else Pass
    }

    /** What the completed assignment holds for variable `v`, or why it
        cannot be completed: the validated supplied value, or the default. */
    function Slot(v: string, kwargs: Assignment): Result<Value>
      requires factorStorage.Some?
    {
      if v in kwargs then
        match CheckCategory(v, kwargs[v])
        case Fail(e) => Err(e)
        case Pass => Ok(kwargs[v])
      else DefaultValue(v)
    }

    /** One pass of the loop of `cond` over variable `v`, with the
        dictionary `d` built so far. */
    function Step(v: string, d: Assignment): Result<Assignment>
      requires factorStorage.Some?
    {
      if v in d then
        match CheckCategory(v, d[v])
        case Fail(e) => Err(e)
        case Pass => Ok(d)
      else
        match DefaultValue(v)
        case Err(e) => Err(e)
        case Ok(x) => Ok(d[v := x])
    }

    /** The dictionary the loop of `cond` has built after visiting `vs`, or
        the first error it met. */
    function Fill(vs: seq<string>, kwargs: Assignment): Result<Assignment>
      requires factorStorage.Some?
      decreases |vs|
    {
      if vs == [] then Ok(kwargs)
      else
        match Fill(vs[..|vs| - 1], kwargs)
        case Err(e) => Err(e)
        case Ok(d) => Step(vs[|vs| - 1], d)
    }

    /** The completed assignment `cond` passes to the design, or its error. */
    function Completion(kwargs: Assignment): Result<Assignment>
    {
      if factorStorage.None? then Err(MissingFactorStorage)
      else if exists k :: k in kwargs && !IsVariable(k) then Err(UnknownVariable)
      else Fill(design.variables, kwargs)
    }

    /** The contrast vector of one condition. */
    function Condition(kwargs: Assignment): (r: Result<Row>)
      requires Valid()
      ensures r.Ok? ==> |r.value| == |design.columns|
    {
      match Completion(kwargs)
      case Err(e) => Err(e)
      case Ok(d) => Ok(design.evaluate(d))
    }

    /** `cond`: validate the supplied values, fill in the omitted ones, and
        re-evaluate the design on the completed assignment. */
    method Cond(kwargs: Assignment) returns (r: Result<Row>)
      requires Valid()
      ensures r == Condition(kwargs)
      ensures factorStorage.None? ==> r == Err(MissingFactorStorage)
      ensures factorStorage.Some? && (exists k :: k in kwargs && !IsVariable(k)) ==>
                r == Err(UnknownVariable)
      ensures r.Ok? ==> |r.value| == |design.columns|
    {
      if factorStorage.None? {
        return Err(MissingFactorStorage);
      }
      if exists k :: k in kwargs && !IsVariable(k) {
        return Err(UnknownVariable);
      }
      var variables, condDict, i := design.variables, kwargs, 0;
      while i < |variables|
        invariant 0 <= i <= |variables|
        invariant Fill(variables[..i], kwargs) == Ok(condDict)
      {
        var v := variables[i];
        FillExtend(variables, i, kwargs);
        if v in condDict {
          var check := CheckCategory(v, condDict[v]);
          if check.Fail? {
            FillErrorPersists(variables, i + 1, kwargs);
            return Err(check.error);
          }
        } else {
          var default := DefaultValue(v);
          if default.Err? {
            FillErrorPersists(variables, i + 1, kwargs);
            return Err(default.error);
          }
          condDict := condDict[v := default.value];
        }
        i := i + 1;
      }
      assert variables[..i] == variables;
      r := Ok(design.evaluate(condDict));
    }

    /** `contrast`: the condition with `column` at `groupToCompare` minus the
        condition with it at `baseline`. */
    function Contrast(column: string, baseline: Value, groupToCompare: Value): (r: Result<Row>)
      requires Valid()
      ensures r.Ok? ==> |r.value| == |design.columns|
    {
      match Condition(map[column := groupToCompare])
      case Err(e) => Err(e)
      case Ok(compare) =>
        match Condition(map[column := baseline])
        case Err(e) => Err(e)
        case Ok(base) => Ok(Difference(compare, base))
    }

    // -------------------------------------------------------------------
    // The loop of `cond`

    /** Visiting one more variable is one more step of the loop. */
    lemma FillExtend(vs: seq<string>, i: nat, kwargs: Assignment)
      requires factorStorage.Some?
      requires i < |vs| && Fill(vs[..i], kwargs).Ok?
      ensures Fill(vs[..i + 1], kwargs) == Step(vs[i], Fill(vs[..i], kwargs).value)
    {
      assert vs[..i + 1][..i] == vs[..i];
    }

    /** Once the loop has failed, visiting more variables keeps that error. */
    lemma {:induction false} FillErrorPersists(vs: seq<string>, n: nat, kwargs: Assignment)
      requires factorStorage.Some?
      requires n <= |vs|
      requires Fill(vs[..n], kwargs).Err?
      ensures Fill(vs, kwargs) == Fill(vs[..n], kwargs)
      decreases |vs| - n
    {
      if n < |vs| {
        assert vs[..n + 1][..n] == vs[..n];
        FillErrorPersists(vs, n + 1, kwargs);
      } else {
        assert vs[..n] == vs;
      }
    }

    /** After the loop: the keys are the supplied ones and the visited
        variables, every supplied value is kept, and every visited variable
        holds its slot's value. */
    lemma {:induction false} FillKeysAndValues(vs: seq<string>, kwargs: Assignment)
      requires factorStorage.Some?
      ensures Fill(vs, kwargs).Ok? ==>
                var d := Fill(vs, kwargs).value;
                && (forall k :: k in d <==> k in kwargs || k in vs)
                && (forall k :: k in kwargs ==> d[k] == kwargs[k])
                && (forall k :: k in vs ==> Slot(k, kwargs) == Ok(d[k]))
      decreases |vs|
    {
      if vs != [] {
        var p, v := vs[..|vs| - 1], vs[|vs| - 1];
        assert vs == p + [v];
        FillKeysAndValues(p, kwargs);
      }
    }

    /** Over distinct variables the loop succeeds exactly when every slot
        does. */
    lemma {:induction false} FillSucceedsIff(vs: seq<string>, kwargs: Assignment)
      requires factorStorage.Some?
      requires Distinct(vs)
      ensures Fill(vs, kwargs).Ok? <==> forall i :: 0 <= i < |vs| ==> Slot(vs[i], kwargs).Ok?
      decreases |vs|
    {
      if vs != [] {
        var p, v := vs[..|vs| - 1], vs[|vs| - 1];
        assert vs == p + [v];
        FillSucceedsIff(p, kwargs);
        if Fill(p, kwargs).Ok? {
          StepMatchesSlot(p, v, kwargs);
        }
      }
    }

    /** Over distinct variables a failed loop reports the error of the first
        variable, in order, whose slot fails. */
    lemma {:induction false} FillFirstError(vs: seq<string>, kwargs: Assignment)
      requires factorStorage.Some?
      requires Distinct(vs)
      ensures Fill(vs, kwargs).Err? ==>
                exists i :: 0 <= i < |vs| && Slot(vs[i], kwargs) == Err(Fill(vs, kwargs).error) &&
                            forall j :: 0 <= j < i ==> Slot(vs[j], kwargs).Ok?
      decreases |vs|
    {
      if vs != [] && Fill(vs, kwargs).Err? {
        var p, v := vs[..|vs| - 1], vs[|vs| - 1];
        assert vs == p + [v];
        if Fill(p, kwargs).Err? {
          FillFirstError(p, kwargs);
          var i :| 0 <= i < |p| && Slot(p[i], kwargs) == Err(Fill(p, kwargs).error) &&
                   forall j :: 0 <= j < i ==> Slot(p[j], kwargs).Ok?;
          assert vs[i] == p[i];
          assert forall j :: 0 <= j < i ==> vs[j] == p[j];
        } else {
          FillSucceedsIff(p, kwargs);
          StepMatchesSlot(p, v, kwargs);
          assert Slot(vs[|p|], kwargs) == Err(Fill(vs, kwargs).error);
          assert forall j :: 0 <= j < |p| ==> vs[j] == p[j];
        }
      }
    }

    /** The loop's step for a variable not visited before fails exactly when
        its slot does, with the slot's error. */
    lemma StepMatchesSlot(p: seq<string>, v: string, kwargs: Assignment)
      requires factorStorage.Some?
      requires Distinct(p + [v])
      requires Fill(p, kwargs).Ok?
      ensures Step(v, Fill(p, kwargs).value).Err? <==> Slot(v, kwargs).Err?
      ensures Step(v, Fill(p, kwargs).value).Err? ==>
                Step(v, Fill(p, kwargs).value).error == Slot(v, kwargs).error
    {
      assert (p + [v])[|p|] == v;
      assert forall i :: 0 <= i < |p| ==> (p + [v])[i] == p[i];
      assert v !in p;
      FillKeysAndValues(p, kwargs);
    }

    /** Two assignments whose slots agree on every variable, and which agree
        off the variables, complete the same way, error included. */
    lemma FillDeterminedBySlots(vs: seq<string>, kwargs: Assignment, other: Assignment)
      requires factorStorage.Some?
      requires Distinct(vs)
      requires forall i :: 0 <= i < |vs| ==> Slot(vs[i], kwargs) == Slot(vs[i], other)
      requires forall k :: k !in vs ==> (k in kwargs <==> k in other)
      requires forall k :: k !in vs && k in kwargs ==> kwargs[k] == other[k]
      ensures Fill(vs, kwargs) == Fill(vs, other)
    {
      FillSucceedsIff(vs, kwargs);
      FillSucceedsIff(vs, other);
      if Fill(vs, kwargs).Ok? {
        assert forall k :: k in vs ==> Slot(k, kwargs) == Slot(k, other);
        SameSlotsSameAssignment(vs, kwargs, other);
      } else {
        SameSlotsSameError(vs, kwargs, other);
      }
    }

    lemma SameSlotsSameAssignment(vs: seq<string>, kwargs: Assignment, other: Assignment)
      requires factorStorage.Some?
      requires Fill(vs, kwargs).Ok? && Fill(vs, other).Ok?
      requires forall k :: k in vs ==> Slot(k, kwargs) == Slot(k, other)
      requires forall k :: k !in vs ==> (k in kwargs <==> k in other)
      requires forall k :: k !in vs && k in kwargs ==> kwargs[k] == other[k]
      ensures Fill(vs, kwargs) == Fill(vs, other)
    {
      FillKeysAndValues(vs, kwargs);
      FillKeysAndValues(vs, other);
      var d, e := Fill(vs, kwargs).value, Fill(vs, other).value;
      assert d.Keys == e.Keys;
      assert d == e;
    }

    lemma SameSlotsSameError(vs: seq<string>, kwargs: Assignment, other: Assignment)
      requires factorStorage.Some?
      requires Distinct(vs)
      requires Fill(vs, kwargs).Err? && Fill(vs, other).Err?
      requires forall i :: 0 <= i < |vs| ==> Slot(vs[i], kwargs) == Slot(vs[i], other)
      ensures Fill(vs, kwargs) == Fill(vs, other)
    {
      FillFirstError(vs, kwargs);
      FillFirstError(vs, other);
      var i :| 0 <= i < |vs| && Slot(vs[i], kwargs) == Err(Fill(vs, kwargs).error) &&
               forall j :: 0 <= j < i ==> Slot(vs[j], kwargs).Ok?;
      var i' :| 0 <= i' < |vs| && Slot(vs[i'], other) == Err(Fill(vs, other).error) &&
                forall j :: 0 <= j < i' ==> Slot(vs[j], other).Ok?;
      if i < i' {
        assert false;
      } else if i' < i {
        assert false;
      }
      assert Slot(vs[i], kwargs) == Slot(vs[i'], other);
    }

    // -------------------------------------------------------------------
    // What `cond` promises about the completed assignment

    /** `cond` succeeds exactly when storage exists, every supplied key is a
        model variable, and every variable's slot succeeds. */
    lemma CompletionSucceedsIff(kwargs: Assignment)
      requires Valid()
      ensures Completion(kwargs).Ok? <==>
                && factorStorage.Some?
                && (forall k :: k in kwargs ==> IsVariable(k))
                && (forall v :: IsVariable(v) ==> Slot(v, kwargs).Ok?)
    {
      if factorStorage.Some? && forall k :: k in kwargs ==> IsVariable(k) {
        FillSucceedsIff(design.variables, kwargs);
        if forall i :: 0 <= i < |design.variables| ==> Slot(design.variables[i], kwargs).Ok? {
          forall v | IsVariable(v) ensures Slot(v, kwargs).Ok? {
            var i :| 0 <= i < |design.variables| && design.variables[i] == v;
          }
        }
      }
    }

    /** A completed assignment binds exactly the model variables; each
        supplied value is kept as given and each omitted variable holds its
        default. */
    lemma CompletionCoversVariables(kwargs: Assignment)
      requires Valid()
      ensures Completion(kwargs).Ok? ==>
                var d := Completion(kwargs).value;
                && factorStorage.Some?
                && (forall k :: k in d <==> IsVariable(k))
                && (forall k :: k in kwargs ==> d[k] == kwargs[k])
                && (forall k :: k in d && k !in kwargs ==> DefaultValue(k) == Ok(d[k]))
    {
      if Completion(kwargs).Ok? {
        FillKeysAndValues(design.variables, kwargs);
      }
    }

    /** The default an omitted variable receives: zero for a numeric one; for
        a categorical one its resolved baseline, or the sentinel when it has
        none. */
    lemma OmittedVariableDefault(kwargs: Assignment, v: string)
      requires Valid()
      requires Completion(kwargs).Ok? && IsVariable(v) && v !in kwargs
      ensures v in Completion(kwargs).value
      ensures var meta, x := FactorMetadataFor(v), Completion(kwargs).value[v];
              && (resolver.kind(meta) == Resolved(Numerical) ==> x == Num(0.0))
              && (resolver.kind(meta) == Resolved(Categorical) ==>
                    resolver.base(meta).Resolved? &&
                    x == Str(match resolver.base(meta).value
                             case Some(b) => b
                             case None => Sentinel))
    {
      CompletionCoversVariables(kwargs);
    }

    /** When an omitted categorical variable's baseline is ambiguous, `cond`
        fails rather than pick one. */
    lemma AmbiguousBaseRejectsOmission(kwargs: Assignment, v: string)
      requires Valid() && factorStorage.Some?
      requires IsVariable(v) && v !in kwargs
      requires resolver.kind(FactorMetadataFor(v)) == Resolved(Categorical)
      requires resolver.base(FactorMetadataFor(v)) == Ambiguous
      ensures Completion(kwargs).Err?
    {
      CompletionSucceedsIff(kwargs);
      assert !Slot(v, kwargs).Ok?;
    }

    /** A supplied value of a categorical variable outside its resolved
        categories makes `cond` fail. */
    lemma UnknownCategoryRejected(kwargs: Assignment, v: string)
      requires Valid() && factorStorage.Some?
      requires v in kwargs
      requires resolver.kind(FactorMetadataFor(v)) == Resolved(Categorical)
      requires resolver.categories(FactorMetadataFor(v)).Resolved?
      requires !InCategories(kwargs[v], resolver.categories(FactorMetadataFor(v)).value)
      ensures Completion(kwargs).Err?
    {
      CompletionSucceedsIff(kwargs);
      assert !Slot(v, kwargs).Ok?;
    }

    /** The value supplied for a numeric variable is not checked: whether
        the completion succeeds does not depend on it, and it is passed on as
        given. */
    lemma NumericValueUnchecked(kwargs: Assignment, v: string, x: Value, y: Value)
      requires Valid() && factorStorage.Some?
      requires resolver.kind(FactorMetadataFor(v)) == Resolved(Numerical)
      ensures Completion(kwargs[v := x]).Ok? <==> Completion(kwargs[v := y]).Ok?
      ensures Completion(kwargs[v := x]).Ok? ==>
                v in Completion(kwargs[v := x]).value && Completion(kwargs[v := x]).value[v] == x
    {
      CompletionSucceedsIff(kwargs[v := x]);
      CompletionSucceedsIff(kwargs[v := y]);
      CompletionCoversVariables(kwargs[v := x]);
      forall u | IsVariable(u) && u != v
        ensures Slot(u, kwargs[v := x]) == Slot(u, kwargs[v := y])
      {
      }
    }

    /** Supplying an omitted variable's own default, when that default passes
        validation, gives the same completed assignment as omitting it. */
    lemma SupplyingDefaultIsOmitting(kwargs: Assignment, v: string, x: Value)
      requires Valid() && factorStorage.Some?
      requires IsVariable(v) && v !in kwargs
      requires DefaultValue(v) == Ok(x) && CheckCategory(v, x) == Pass
      ensures Completion(kwargs) == Completion(kwargs[v := x])
    {
      var other := kwargs[v := x];
      assert (exists k :: k in kwargs && !IsVariable(k)) <==> (exists k :: k in other && !IsVariable(k));
      FillDeterminedBySlots(design.variables, kwargs, other);
    }

    /** Under the behaviour the resolver shows for baselines, an omitted
        categorical variable whose factors recorded a reduced-rank snapshot
        with a real baseline next to a snapshot of another baseline (a
        full-rank one has none), makes `cond` fail. */
    lemma ConflictingEncodingsRejectOmission(kwargs: Assignment, v: string, p: nat, q: nat,
                                             m1: FactorMetadata, m2: FactorMetadata)
      requires Valid() && factorStorage.Some? && ObservedBaseAmbiguity(resolver)
      requires IsVariable(v) && v !in kwargs
      requires resolver.kind(FactorMetadataFor(v)) == Resolved(Categorical)
      requires p < |FactorsOf(v)| && q < |FactorsOf(v)|
      requires m1 in Entries(factorStorage.value, FactorsOf(v)[p])
      requires m2 in Entries(factorStorage.value, FactorsOf(v)[q])
      requires m1.reducedRank && m1.base.Some? && m1.base != m2.base
      ensures Completion(kwargs).Err?
    {
      var meta := FactorMetadataFor(v);
      ChainMembership(factorStorage.value, FactorsOf(v), m1);
      ChainMembership(factorStorage.value, FactorsOf(v), m2);
      var i :| 0 <= i < |meta| && meta[i] == m1;
      var j :| 0 <= j < |meta| && meta[j] == m2;
      assert resolver.base(meta) == Ambiguous;
      AmbiguousBaseRejectsOmission(kwargs, v);
    }

    // -------------------------------------------------------------------
    // What `contrast` promises

    /** `contrast` succeeds exactly when both conditions do, and is then
        their elementwise difference. */
    lemma ContrastIsDifference(column: string, baseline: Value, groupToCompare: Value)
      requires Valid()
      ensures var r := Contrast(column, baseline, groupToCompare);
              var compare := Condition(map[column := groupToCompare]);
              var base := Condition(map[column := baseline]);
              && (r.Ok? <==> compare.Ok? && base.Ok?)
              && (r.Ok? ==> forall i :: 0 <= i < |design.columns| ==>
                              r.value[i] == compare.value[i] - base.value[i])
    {
    }

    /** A group contrasted with itself gives the zero vector. */
    lemma ContrastWithItselfIsZero(column: string, group: Value)
      requires Valid()
      ensures var r := Contrast(column, group, group);
              && (r.Ok? <==> Condition(map[column := group]).Ok?)
              && (r.Ok? ==> forall i :: 0 <= i < |r.value| ==> r.value[i] == 0.0)
    {
    }

    /** Swapping the two groups negates the contrast. */
    lemma ContrastAntisymmetric(column: string, a: Value, b: Value)
      requires Valid()
      ensures var r, s := Contrast(column, a, b), Contrast(column, b, a);
              && (r.Ok? <==> s.Ok?)
              && (r.Ok? ==> |r.value| == |s.value| &&
                            forall i :: 0 <= i < |r.value| ==> r.value[i] == -s.value[i])
    {
    }
  }
}
