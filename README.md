# formulaic-contrasts: the contrast builder, modelled in Dafny

`FormulaicContrasts` builds contrast vectors for a statistical model given
as a formula. The vectors are aligned to the columns of the design matrix.
`cond(**kwargs)` takes a partial assignment of values to the model's
variables and completes it. A supplied value is validated against the
variable's resolved categories. An omitted variable gets a default: the
resolved baseline category, a NUL sentinel when there is no baseline, or 0
for a numeric variable. The builder then re-evaluates the design on that one
row. `contrast(column, baseline, group)` is the difference of two such rows.

The model has two files:

- `factor_metadata.dfy` (module `Metadata`) holds the per-factor metadata
  records (kind, categories, optional base, reduced rank). It also holds the
  resolver as a `Resolver` value: three uninterpreted functions, one each for
  `kind`, `base` and `categories`. Each one returns `Resolved(v)` or
  `Ambiguous`. The predicate `ObservedBaseAmbiguity` states what the tests
  show of the resolver's rule for `base`. Only one lemma assumes it.
- `contrasts.dfy` (module `Contrasts`) holds the class `FormulaicContrasts`.
  It has the three fields set in `__init__`, plus the resolver. The method
  `Cond` has the loop that fills the dictionary. It is proved equal to the
  specification function `Condition`. `Fill` models that loop step by step,
  and lemmas about `Fill` state what the completed assignment holds.
  `Contrast` and the helper functions are pure functions.

The design is a value `Design(columns, variables, evaluate)`. `evaluate`
stands for `model_spec.get_model_matrix` on a one-row table. `WellFormed`
states what the formula engine guarantees: the variables form a set, and
every re-evaluation has exactly one entry per column.

The factor storage and the variable-to-factors map are read as dictionaries
that return an empty list for a missing key. The module that builds them is
not part of this model. The factors of a variable are kept in the order the
map lists them.

Where each part of `src/formulaic_contrasts/_contrasts.py` is modelled:

- `_get_default_value` (lines 83-94) is `FormulaicContrasts.DefaultValue`. Its behaviour is stated by `OmittedVariableDefault` and `AmbiguousBaseRejectsOmission`.
- `_check_category` (lines 100-106) is `FormulaicContrasts.CheckCategory`. Its behaviour is stated by `UnknownCategoryRejected` and `NumericValueUnchecked`.
- `_get_factor_metadata_for_variable` (lines 96-98) is `FormulaicContrasts.FactorMetadataFor`, built on `Chain`. Its behaviour is stated by `ChainLength`, `ChainAppend`, `ChainSlice` and `ChainMembership`.
- One pass of the loop at lines 56-60 is `FormulaicContrasts.Step`; the loop as a whole is `FormulaicContrasts.Fill`. `Slot` is the outcome for one variable, independent of order. The `Fill*` lemmas relate the two.
- Lines 46-60 (storage check, key check, loop) are `FormulaicContrasts.Completion`. Its behaviour is stated by `CompletionSucceedsIff` and `CompletionCoversVariables`.
- Lines 61-62 are `FormulaicContrasts.Condition`, and the method `Cond` is the whole of `cond`.

## Model

| member | source | states |
|---|---|---|
| `Contrasts.FormulaicContrasts.constructor` | src/formulaic_contrasts/_contrasts.py:9-21 | the builder keeps the storage, the variable-to-factors map and the design it is given, and its invariant holds |
| `Contrasts.FormulaicContrasts.Cond` | src/formulaic_contrasts/_contrasts.py:33-62 | the loop's result is exactly `Condition(kwargs)`; with no factor storage it fails with `MissingFactorStorage`; a supplied key that is not a model variable fails with `UnknownVariable` before any default or evaluation; a successful row has one entry per design column |
| `Contrasts.FormulaicContrasts.Condition` | src/formulaic_contrasts/_contrasts.py:61-62 | a successful condition row is aligned to the design's columns |
| `Contrasts.FormulaicContrasts.FillErrorPersists` | src/formulaic_contrasts/_contrasts.py:56-60 | once a variable's check or default fails, visiting more variables keeps that error |
| `Contrasts.FormulaicContrasts.FillKeysAndValues` | src/formulaic_contrasts/_contrasts.py:56-60 | after the loop the keys are the supplied keys plus the visited variables; supplied values are unchanged; each visited variable holds its slot's value (the checked supplied value or the default) |
| `Contrasts.FormulaicContrasts.FillSucceedsIff` | src/formulaic_contrasts/_contrasts.py:56-60 | over distinct variables the loop succeeds if and only if every variable's slot succeeds |
| `Contrasts.FormulaicContrasts.FillFirstError` | src/formulaic_contrasts/_contrasts.py:56-60 | a failed loop reports the error of the first failing variable, in order |
| `Contrasts.FormulaicContrasts.FillDeterminedBySlots` | src/formulaic_contrasts/_contrasts.py:56-60 | two assignments whose slots agree on every variable complete to the same result, error included |
| `Contrasts.FormulaicContrasts.CompletionSucceedsIff` | src/formulaic_contrasts/_contrasts.py:46-60 | completion succeeds if and only if storage exists, every supplied key is a model variable and every variable's slot succeeds |
| `Contrasts.FormulaicContrasts.CompletionCoversVariables` | src/formulaic_contrasts/_contrasts.py:50-60 | a completed assignment's keys are exactly the model variables; supplied values are kept; only omitted variables get defaults |
| `Contrasts.FormulaicContrasts.OmittedVariableDefault` | src/formulaic_contrasts/_contrasts.py:83-94 | an omitted numeric variable gets 0; an omitted categorical one gets its resolved base, or the sentinel `"\0"` when there is no base |
| `Contrasts.FormulaicContrasts.AmbiguousBaseRejectsOmission` | src/formulaic_contrasts/_contrasts.py:85-91 | an omitted categorical variable with an ambiguous base makes the completion, and so `cond`, fail instead of picking a value |
| `Contrasts.FormulaicContrasts.UnknownCategoryRejected` | src/formulaic_contrasts/_contrasts.py:100-106 | a supplied categorical value outside the resolved categories makes the completion, and so `cond`, fail |
| `Contrasts.FormulaicContrasts.NumericValueUnchecked` | src/formulaic_contrasts/_contrasts.py:100-106 | a numeric variable's supplied value never decides whether the completion succeeds, and is passed on as given |
| `Contrasts.FormulaicContrasts.SupplyingDefaultIsOmitting` | src/formulaic_contrasts/_contrasts.py:56-60 | supplying an omitted variable's own default, when it passes validation, gives the same completion as omitting it |
| `Contrasts.FormulaicContrasts.ConflictingEncodingsRejectOmission` | tests/test_contrasts.py:47-74 | under the observed resolver behaviour, a reduced-rank snapshot with a real baseline next to any snapshot of another baseline (a full-rank one has none) makes the completion fail when the variable is omitted |
| `Metadata.AgreedBaseMeetsObservation` | tests/test_contrasts.py:47-74 | a resolver that keeps a baseline only when all snapshots agree on it meets the observed behaviour, so that hypothesis does not exclude such a rule |
| `Contrasts.FormulaicContrasts.Contrast` | src/formulaic_contrasts/_contrasts.py:64-81 | a successful contrast is aligned to the design's columns |
| `Contrasts.FormulaicContrasts.ContrastIsDifference` | src/formulaic_contrasts/_contrasts.py:81 | `contrast` succeeds if and only if both conditions do, and is then `cond(column=group) - cond(column=baseline)` elementwise |
| `Contrasts.FormulaicContrasts.ContrastWithItselfIsZero` | src/formulaic_contrasts/_contrasts.py:81 | a group contrasted with itself is the zero vector |
| `Contrasts.FormulaicContrasts.ContrastAntisymmetric` | src/formulaic_contrasts/_contrasts.py:81 | swapping baseline and group negates the contrast, and neither order fails without the other |
| `Contrasts.ChainLength` | src/formulaic_contrasts/_contrasts.py:96-98 | a variable's metadata list is as long as its factors' lists together |
| `Contrasts.ChainAppend` | src/formulaic_contrasts/_contrasts.py:96-98 | chaining two lists of factors one after the other is concatenating their chains |
| `Contrasts.ChainSlice` | src/formulaic_contrasts/_contrasts.py:96-98 | each factor's entries appear unchanged and in their own order, right after the entries of the factors before it |
| `Contrasts.ChainMembership` | src/formulaic_contrasts/_contrasts.py:96-98 | an entry is in a variable's metadata if and only if it was recorded for one of the variable's factors |

## Left out

- Formula parsing, design materialisation and the DataFrame/Series wrapping are done by the external formula engine and pandas. The design is an abstract evaluator; its rows are assumed aligned to the columns.
- `evaluate` is total: re-evaluation (src/formulaic_contrasts/_contrasts.py:62) is assumed to succeed on every completed assignment. The engine may in fact raise there, for example on a string supplied for a numeric variable, which validation lets through, or on the `"\0"` sentinel if it rejects unseen levels. The model does not capture those failures.
- `resolve_ambiguous` and the metadata module are not part of this model. The resolver is an uninterpreted parameter. Its only stated behaviour is the test-derived hypothesis `ObservedBaseAmbiguity`.
- The `variables` property's translation of `AttributeError` into `ValueError` depends on formula-engine internals. The variables are a given list of distinct names.
- Error message text is not modelled. Only which error occurs is modelled.
- Design-matrix entries are `real`, not floating point.
- Python sets have no fixed iteration order. The model takes the variables, and each variable's factors, in one given order. The order of the variables matters only for which error is reported first when several variables fail (`FillSucceedsIff`, `FillKeysAndValues`).
- The resolver is assumed to give the same answer for any order of a variable's snapshots. The model does not prove this: the order of the factors fixes the order of `FactorMetadataFor(v)`, and the abstract resolver may answer differently for another order. The defaults and the success of `cond` could then change.
- Category labels and baselines are strings. `InCategories` accepts only a `Str` value. A categorical variable with non-string levels, such as `C(batch)` on an integer column where the source accepts `cond(batch=1)`, is not modelled.
- Reading a missing key of a defaultdict inserts an empty entry. That write is not modelled, because nothing reads it.
- The dataset generator, version lookup and test fixtures are packaging and test scaffolding, not logic.
- On a mixed full-rank and reduced-rank encoding the tests (tests/test_contrasts.py:70-74) expect an ambiguous base. A reading where full-rank snapshots carry no baseline opinion predicts the opposite. The model follows neither as a definition: it keeps the resolver abstract and states the tests' behaviour only as a hypothesis.
