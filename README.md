# pydantic utilities, alias generators and validation pipeline in Dafny

This project models four parts of pydantic. Dafny proves properties of each model.

- **Internal utilities** (`Utils`):
  - `unique_list`: order-preserving de-duplication. With a `name_factory`, the last element of each name is kept, at the position of that name's first appearance.
  - `deep_update`: recursive dictionary update. Dictionaries are values, so the input mapping is never changed.
  - `all_identical`: element-wise identity of two sequences, compared with `is`.
- **`ValueItems`** (`ValueItemsModel`): include/exclude specifications.
  - Coercing a specification: a set of keys becomes a mapping to `...`.
  - `merge`, in union and in intersection mode.
  - Normalising a specification against a list, covering negative indexes, `__all__` and the three `TypeError`s.
  - The queries `is_excluded`, `is_included` and `for_element`.
- **Alias generators** (`AliasGenerators`): `to_pascal`, `to_camel` and `to_snake`.
  - Each is modelled the way it is built, as `str.title`, `re.sub` passes, `str.replace` and `str.lower`.
  - Each is proved equal to a reference definition that decides each output character from the input character and its neighbours.
- **The experimental validation pipeline** (`Pipeline`, with the string operations in `PipelineText`), on `int` and `str` values:
  - `validate_as(tp, strict=...)` and `validate_as(...)`;
  - the `transform` steps and the string transforms;
  - the constraints `gt`, `ge`, `lt`, `le`, `multiple_of`, `Interval`, `len`, `eq`, `not_eq`, `in_`, `not_in`, `str_contains`, `str_starts_with`, `str_ends_with` and `predicate`;
  - `|`, a union tried left first;
  - `&`, a chain in which the right pipeline runs on the left's output.

The pipeline has two forms:

- A pure evaluator, `Eval`, returns the outcome together with the log of calls the transforms made.
- The `Validator` class keeps that log as a list that `ValidatePython` appends to and `Clear` empties. This follows the shared `calls` list of the composition test.

A pipeline that starts with `validate_as` builds a pydantic-core schema, and the steps right after it that the schema can express fold into it:

- bounds, divisors and intervals fold into an `int` schema;
- lengths and `str_strip`, `str_lower` and `str_upper` fold into a `str` schema.

The folded `str` schema trims with Rust's `str::trim`, checks the length of the trimmed string, and then changes its case. Rust's trim keeps the separators `\x1c`-`\x1f`, which Python's `str.strip` removes, so the model carries both whitespace sets. A step that does not fold runs as a Python function. The lax `int` parse is pydantic-core's: it trims with `str::trim`, refuses more than 4300 characters, and accepts a `.` followed only by zeros.

The `*Examples` modules prove the rows of the test suite from the general lemmas. Most pipeline rows are stated for every input, not only for the values in the test.

The implementation files are not part of this model: `pydantic/_internal/_utils.py`, `pydantic/alias_generators.py` and `pydantic/experimental/pipeline.py`. The behaviour modelled is the one that `tests/test_utils.py` and `tests/test_pipeline.py` pin down, so every row below cites those tests.

## Model

| member | source | states |
|---|---|---|
| Utils.UniqueList | tests/test_utils.py:123-133 | No contract of its own. `UniqueListNames`, `UniqueListKeepsLast` and `UniqueListByValue` state what it returns. |
| Utils.UniqueListNames | tests/test_utils.py:123-133 | The names of `unique_list`'s result are the input's names without repeats, in order of first appearance. |
| Utils.UniqueListKeepsLast | tests/test_utils.py:123-133 | Every element of the result is the last element of the input that has its name. |
| Utils.UniqueListOfDistinctNames | tests/test_utils.py:123-133 | A list with no repeated name is returned unchanged. |
| Utils.UniqueListIdempotent | tests/test_utils.py:133 | `unique_list(unique_list(x)) == unique_list(x)`. |
| Utils.UniqueListByValue | tests/test_utils.py:123-133 | Without a name factory, `unique_list` is order-preserving de-duplication (`Distinct`). |
| Utils.DistinctFacts | tests/test_utils.py:123-133 | `Distinct(s)` has no duplicates and the same elements as `s`. |
| Utils.DistinctAppend | tests/test_utils.py:123-133 | Appending an element already seen leaves `Distinct` unchanged; a new one is appended to it. |
| Utils.UpdateWith | tests/test_utils.py:303-334 | One update's result has exactly the keys of the mapping and of the update. |
| Utils.UpdateWithHoldsUpdate | tests/test_utils.py:303-334 | After an update the result holds every value of the update, with dicts merged recursively; keys the update does not mention keep their old values. |
| Utils.UpdateWithIdempotent | tests/test_utils.py:303-334 | Applying the same update twice gives what applying it once gives. |
| Utils.UpdateWithItself | tests/test_utils.py:303-334 | Updating a mapping with itself changes nothing. |
| Utils.UpdateWithEmpty | tests/test_utils.py:303-334 | An empty update changes nothing, and updating an empty mapping gives the update. |
| Utils.DeepUpdate | tests/test_utils.py:332-333 | The result's keys are the mapping's keys together with the keys of every updating mapping. |
| Utils.UpdatedKeysOf | tests/test_utils.py:332-333 | A key is among the updated keys exactly when some updating mapping has it. |
| Utils.DeepUpdateOne | tests/test_utils.py:332-333 | With one updating mapping, `deep_update` is one update step. |
| Utils.DeepUpdateAppend | tests/test_utils.py:332-333 | One more updating mapping is one more update step on the result so far: the updating mappings are applied in turn. |
| Utils.DeepUpdateHoldsLast | tests/test_utils.py:332-333 | The result holds every value of the last updating mapping, with dicts merged recursively. |
| Utils.AllIdentical | tests/test_utils.py:425-437 | True exactly when both sequences have the same length and hold the same objects, position by position. |
| UtilsExamples.UniqueListEmpty | tests/test_utils.py:127-133 | The empty list row, and its idempotence. |
| UtilsExamples.UniqueListInts | tests/test_utils.py:128-133 | `[1, 1, 1, 2, ...]` gives `[1, 2, 3, 4]`, and applying `unique_list` again changes nothing. |
| UtilsExamples.UniqueListStrings | tests/test_utils.py:129-133 | `['a', 'a', 'b', ...]` gives `['a', 'b', 'c']`, and applying `unique_list` again changes nothing. |
| UtilsExamples.DeepUpdateInsertsExtraKeys | tests/test_utils.py:306-311 | Extra keys are inserted. |
| UtilsExamples.DeepUpdateReplacesUnmergeable | tests/test_utils.py:312-317 | A value that cannot be merged is replaced. |
| UtilsExamples.DeepUpdateMergesNested | tests/test_utils.py:318-323 | Values under a shared key are merged. |
| UtilsExamples.DeepUpdateMergesDeeplyNested | tests/test_utils.py:324-329 | Nested dicts under shared keys are merged at every depth. |
| UtilsExamples.DeepUpdateTwoMappings | tests/test_utils.py:332-333 | Two updating mappings, the first and the third test rows' updates, are applied in turn: `other_key` is inserted and the nested dict is merged. |
| UtilsExamples.AllIdenticalExamples | tests/test_utils.py:425-437 | The same objects give true. Lists of different lengths give false. Two different new list objects give false. |
| ValueItemsModel.CoerceItems | tests/test_utils.py:193-239 | Only a mapping or a set is accepted. A mapping is kept. A set becomes a mapping of its keys to `...`. |
| ValueItemsModel.CoerceValue | tests/test_utils.py:193-239 | Accepts exactly `None`, `True`, `...`, a mapping or a set. Coercion never deepens a specification. What it returns is `None`, a full marker or a mapping. |
| ValueItemsModel.CoerceClean | tests/test_utils.py:193-239 | Coercion selects exactly the paths the original selected and keeps its keys. |
| ValueItemsModel.Merge | tests/test_utils.py:193-239 | No contract of its own. `MergeClean`, `MergeItemsEntry`, `MergeIntersectionSelects`, `MergeUnionKeepsOverride` and `MergeUnionWithinEither` state what it returns. |
| ValueItemsModel.MergeClean | tests/test_utils.py:193-239 | Merging two well-formed specifications succeeds. The result is `None` only when both sides are. For two mappings or sets, the keys are the union, or the intersection in intersection mode. |
| ValueItemsModel.MergeItemsEntry | tests/test_utils.py:193-239 | Each key of a merged mapping holds the merge of the two entries under that key. |
| ValueItemsModel.MergeIntersectionSelects | tests/test_utils.py:213-229 | In intersection mode a path is selected exactly when both sides select it. |
| ValueItemsModel.MergeUnionKeepsOverride | tests/test_utils.py:196-212 | In union mode every path the override selects stays selected. |
| ValueItemsModel.MergeUnionWithinEither | tests/test_utils.py:196-212 | In union mode a selected path is selected by one side or the other. |
| ValueItemsModel.MergeWithEmpty | tests/test_utils.py:202-208 | Merging a mapping or set with `{}` in union mode selects the same paths. |
| ValueItemsModel.ValueItems.IsIncluded | tests/test_utils.py:139-161 | No contract of its own: a key is included when it is in the normalised items. `ValueItems.IsExcluded` states that every excluded key is included, and the examples give the rows. |
| ValueItemsModel.ValueItems.IsExcluded | tests/test_utils.py:139-143 | A key that is excluded is also included. |
| ValueItemsModel.ValueItems.ForElement | tests/test_utils.py:163-165 | `None` exactly when the key is absent, selected whole, or mapped to `None`; otherwise the entry itself. |
| ValueItemsModel.NormIndex | tests/test_utils.py:137-143 | A negative index counts from the end of the sequence; other indexes stay as they are. |
| ValueItemsModel.NewValueItems | tests/test_utils.py:136-190 | A specification that is neither a mapping nor a set is refused. Against a value that is not a sequence, a mapping is kept and a set excludes each of its keys. |
| ValueItemsModel.NormalizeFullIndexes | tests/test_utils.py:137-143 | Fully selected indexes normalise to their resolved positions, each mapped to `...`. |
| ValueItemsModel.NormalizeSetOfIndexes | tests/test_utils.py:137-143 | Against a list, a set of indexes becomes the mapping from their resolved positions to `...`. |
| ValueItemsModel.OnlyAllEntries | tests/test_utils.py:172-190 | `__all__` alone yields no entries when it names no keys. When it is full, every index maps to `...`. Otherwise every index maps to `__all__` merged with `{}`. |
| ValueItemsModel.OnlyAllCoversEveryIndex | tests/test_utils.py:185-190 | A non-empty `__all__` gives every index of the list an entry that selects exactly what `__all__` selects. |
| ValueItemsModel.BadEntryStopsNormalization | tests/test_utils.py:175-184 | One bad entry among the ones being normalised makes normalisation fail: a value that is not an index value, or a key that is neither an index nor `__all__`. |
| ValueItemsModel.SequenceEntriesChecked | tests/test_utils.py:175-184 | Against a list, a specification with such an entry is refused with a `TypeError`. |
| ValueItemsModel.AcceptedIndexMapping | tests/test_utils.py:163-190 | Against a list, a mapping whose keys are indexes or `__all__` and whose entries are well-formed mappings, sets or full markers is accepted. |
| ValueItemsModel.NormalizeCleanEntries | tests/test_utils.py:163-190 | The first normalisation pass over such entries succeeds and keeps every entry well formed. |
| ValueItemsModel.Colliding | tests/test_utils.py:163-165 | Picks out, in order, exactly the keys that are indexes landing on a given index, a negative one counted from the end. |
| ValueItemsModel.CollidingNone | tests/test_utils.py:163-165 | No key lands on an index that no key of the order resolves to. |
| ValueItemsModel.CollidingOnce | tests/test_utils.py:163-165 | When one key of a duplicate-free order lands on an index, it is the only one picked out. |
| ValueItemsModel.CollidingTwo | tests/test_utils.py:163-165 | When two keys land on one index, both are picked out, in their order. |
| ValueItemsModel.NormalizeEntries | tests/test_utils.py:163-190 | No contract of its own. `NormalizeEntriesAt`, `NormalizeEntriesAll` and `NormalizeCleanEntries` state what the first pass returns. |
| ValueItemsModel.NormalizeEntriesAt | tests/test_utils.py:163-190 | At each index, the first pass leaves the entries landing there merged in order, each over the one before (`merge(v, existing)`). The index has an entry exactly when some key lands there, and no entry is `None`. |
| ValueItemsModel.NormalizeEntriesAll | tests/test_utils.py:172-190 | The first pass sets `__all__` aside, coerced, and adds nothing but indexes. |
| ValueItemsModel.ExpandAll | tests/test_utils.py:172-190 | No contract of its own. `ExpandAllAt` states what the second pass returns at each index. |
| ValueItemsModel.ExpandAllAt | tests/test_utils.py:172-190 | At each index, the second pass does what `AllAt` states. An empty `__all__` and an index outside the list keep the entry. A full `__all__` fills a missing index with `...`. A mapping `__all__` keeps a full entry and is merged into any other, a missing one counting as `{}`. It removes no key and adds only indexes. |
| ValueItemsModel.NormalizeIndexMapping | tests/test_utils.py:163-190 | For a mapping against a list, at every index the result combines both passes: the entries landing there merged in order, then `__all__` applied as `AllAt` says. Every key of the result is an index. |
| ValueItemsModel.LoneIndexEntry | tests/test_utils.py:163-165 | With no `__all__`, an index no other key lands on holds its coerced entry at its position, a negative index at length plus index. |
| ValueItemsModel.CollidingEntries | tests/test_utils.py:163-165 | With no `__all__`, two keys landing on one index leave the later entry merged over the earlier, coerced one. |
| ValueItemsExamples.MergeUnionScalarRows | tests/test_utils.py:197-207 | The union rows where a side is `None`, `...` or `{}`. |
| ValueItemsExamples.MergeIntersectionScalarRows | tests/test_utils.py:214-222 | The intersection rows where a side is `None`, `...` or `{}`. |
| ValueItemsExamples.MergeIntersectionSetWithFull | tests/test_utils.py:224 | `{'a'}` intersected with `...` is `{'a': ...}`. |
| ValueItemsExamples.MergeTrueScalarRows | tests/test_utils.py:231-233 | `True` merges like `...` and is kept as it was given. |
| ValueItemsExamples.MergeUnionEmptyMaps | tests/test_utils.py:199 | `{}` union `{}` is `{}`. |
| ValueItemsExamples.MergeIntersectionEmptyMaps | tests/test_utils.py:216 | `{}` intersected with `{}` is `{}`. |
| ValueItemsExamples.MergeUnionDropsNone | tests/test_utils.py:206 | Entries that merge to `None` are dropped, in union mode. |
| ValueItemsExamples.MergeIntersectionDropsNone | tests/test_utils.py:223 | Entries that merge to `None` are dropped, in intersection mode. |
| ValueItemsExamples.MergeUnionSetWithEmpty | tests/test_utils.py:208 | `{'a'}` union `{}` is `{'a': ...}`. |
| ValueItemsExamples.MergeIntersectionSetWithEmpty | tests/test_utils.py:225 | `{'a'}` intersected with `{}` is `{}`. |
| ValueItemsExamples.MergeUnionTwoSets | tests/test_utils.py:209 | `{'a'}` union `{'b'}` selects both. |
| ValueItemsExamples.MergeIntersectionTwoSets | tests/test_utils.py:226 | `{'a'}` intersected with `{'b'}` is `{}`. |
| ValueItemsExamples.MergeUnionDisjointKeys | tests/test_utils.py:210 | Disjoint mappings are joined. |
| ValueItemsExamples.MergeIntersectionDisjointKeys | tests/test_utils.py:227 | Disjoint mappings intersect to `{}`. |
| ValueItemsExamples.MergeUnionNarrowsFullEntry | tests/test_utils.py:211 | In union mode the override's nested entry replaces the base's `...`. |
| ValueItemsExamples.MergeIntersectionNarrowsFullEntry | tests/test_utils.py:228 | In intersection mode, `...` intersected with a nested entry is the nested entry. |
| ValueItemsExamples.MergeUnionWidensEntry | tests/test_utils.py:212 | In union mode an override of `...` widens the nested entry, and other keys are kept. |
| ValueItemsExamples.MergeIntersectionKeepsNarrowEntry | tests/test_utils.py:229 | In intersection mode the nested entry survives against `...`, and other keys are dropped. |
| ValueItemsExamples.MergeTrueWidensEntry | tests/test_utils.py:234 | The same row with `True` in place of `...`. |
| ValueItemsExamples.FirstAndLastOfThree | tests/test_utils.py:137-138 | `{0, -1}` against three elements normalises to `{0: ..., 2: ...}`. |
| ValueItemsExamples.FirstAndLastQueries | tests/test_utils.py:139-143 | Index 2 is excluded and included. Filtering by each query gives `['b']` and `['a', 'c']`. |
| ValueItemsExamples.MappingAgainstDict | tests/test_utils.py:145-161 | Against a dict the mapping is kept. `a` and `b` are included but not excluded; `c` is neither. |
| ValueItemsExamples.ForElementThenList | tests/test_utils.py:163-171 | `for_element('a')` is `{0, -1}`, which normalises against the sub-list as in the first example. |
| ValueItemsExamples.NestedIndexesOfThree | tests/test_utils.py:163-165 | `{0: {'a'}, -1: {'b'}}` against three elements puts `{'a': ...}` at 0 and `{'b': ...}` at 2, and nothing at 1. |
| ValueItemsExamples.CollidingIndexesOfThree | tests/test_utils.py:163-165 | `{2: {'a'}, -1: {'b'}}` against three elements merges both entries at 2 into `{'a': ..., 'b': ...}`. |
| ValueItemsExamples.EmptyAllOnEmptyList | tests/test_utils.py:173-174 | An empty `__all__` on an empty list gives no items. |
| ValueItemsExamples.NoneEntryRefused | tests/test_utils.py:176-177 | Against a list, `{'a': None}` is refused because of the entry for `a`. |
| ValueItemsExamples.NameKeyRefused | tests/test_utils.py:179-184 | Against a list, `{'a': {}}` is refused: the specification is not index-wise. |
| ValueItemsExamples.FullAllOnFour | tests/test_utils.py:186-187 | `__all__: True` against four elements gives every index `...`. |
| ValueItemsExamples.SetAllOnTwo | tests/test_utils.py:189-190 | `__all__: {1, 2}` against two elements gives each index `{1: ..., 2: ...}`. |
| ValueItemsExamples.TupleRefused | tests/test_utils.py:242-246 | A tuple as the specification is refused. |
| AliasGenerators.ToSnake | tests/test_utils.py:493-524 | No contract of its own. `ToSnakeIsSnakeCase`, `ToSnakeClean` and `ToSnakeOnlyAddsUnderscores` state it. |
| AliasGenerators.Title | tests/test_utils.py:475-491 | No contract of its own. `PipelineText.TitleAt` states it character by character. |
| AliasGenerators.ToPascal | tests/test_utils.py:475-491 | No contract of its own. `ToPascalIsPascalCase` states it. |
| AliasGenerators.ToCamel | tests/test_utils.py:445-473 | No contract of its own. `ToCamelFromPascal`, `ToCamelShape` and `CamelWordsAppend` state it. |
| AliasGenerators.ToSnakeIsSnakeCase | tests/test_utils.py:493-524 | The chain of `re.sub` passes, hyphen replacement and lower-casing equals the reference `SnakeCase` for every input. |
| AliasGenerators.SplitAcronymsIsSeparated | tests/test_utils.py:506 | The acronym pass equals the reference separator rule for an acronym followed by a word. |
| AliasGenerators.InsertSeparatorsIsSeparated | tests/test_utils.py:493-524 | Each two-character `re.sub` pass equals the reference rule for its pattern. |
| AliasGenerators.SeparatedThenPair | tests/test_utils.py:493-524 | Running the passes one after another is the same as applying all their rules in one scan. |
| AliasGenerators.ToSnakeClean | tests/test_utils.py:493-524 | `to_snake`'s result has no upper-case letter and no hyphen. |
| AliasGenerators.ToSnakeOnlyAddsUnderscores | tests/test_utils.py:493-524 | Ignoring underscores, `to_snake` is the input lower-cased, with hyphens written as underscores. |
| AliasGenerators.SnakeCaseAppend | tests/test_utils.py:493-524 | The snake case of a concatenation is the two snake cases joined, with the separator the boundary calls for. |
| AliasGenerators.SnakeCaseOfLowerWord | tests/test_utils.py:518 | A lower-case word is left as it is. |
| AliasGenerators.SnakeCaseOfCapitalWord | tests/test_utils.py:517 | A capitalised word is lower-cased. |
| AliasGenerators.DropJoiningIsReference | tests/test_utils.py:475-491 | The `re.sub` that removes joining underscores equals its reference definition. |
| AliasGenerators.ToPascalIsPascalCase | tests/test_utils.py:475-491 | `to_pascal` equals the reference `PascalCase` for every input. |
| AliasGenerators.PascalCaseJoin | tests/test_utils.py:475-491 | `to_pascal` of `a_b`, with letters or digits on both sides of the underscore, is `to_pascal(a) + to_pascal(b)`. |
| AliasGenerators.ToPascalOfLowerWord | tests/test_utils.py:478-486 | A lower-case word is capitalised. |
| AliasGenerators.ToPascalKeepsLeadingUnderscores | tests/test_utils.py:481-485 | `to_pascal` keeps the number of leading underscores. |
| AliasGenerators.ToPascalKeepsTrailingUnderscores | tests/test_utils.py:482-486 | `to_pascal` keeps the number of trailing underscores. |
| AliasGenerators.ToCamelFromPascal | tests/test_utils.py:457-473 | On input that is not already camel case, `to_camel` is `to_pascal` with the first character after the leading underscores lower-cased. |
| AliasGenerators.ToCamelShape | tests/test_utils.py:457-473 | `to_camel`'s first character after the leading underscores is not upper case, and it keeps the number of underscores at both ends. |
| AliasGenerators.UnderscoreIsNotCamel | tests/test_utils.py:457-473 | A name with an underscore is not taken as already camel case. |
| AliasGenerators.DigitThenLowerIsNotCamel | tests/test_utils.py:462 | A name with a digit followed by a lower-case letter is not taken as already camel case. |
| AliasGenerators.CamelWordsAppend | tests/test_utils.py:526-527 | A camel-case name built from words is returned unchanged. |
| AliasGeneratorExamples.ToCamelEmpty | tests/test_utils.py:445-446 | `to_camel('') == ''`. |
| AliasGeneratorExamples.ToCamelOneLetter | tests/test_utils.py:449-450 | `to_camel('a') == 'a'`. |
| AliasGeneratorExamples.ToCamelManyWords | tests/test_utils.py:453-454 | `to_camel('i_like_turtles') == 'iLikeTurtles'`. |
| AliasGeneratorExamples.ToCamelAlreadyCamel | tests/test_utils.py:526-527 | `to_camel('alreadyCamel') == 'alreadyCamel'`. |
| AliasGeneratorExamples.ToCamelSnakeToCamel | tests/test_utils.py:460 | `to_camel` row `snake_to_camel`. |
| AliasGeneratorExamples.ToCamelSnake2Camel | tests/test_utils.py:461 | `to_camel` row `snake_2_camel`. |
| AliasGeneratorExamples.ToCamelDigitThenLetter | tests/test_utils.py:462 | `to_camel` row `snake2camel`. |
| AliasGeneratorExamples.ToCamelLeadingUnderscore | tests/test_utils.py:463 | `to_camel` row `_snake_to_camel`. |
| AliasGeneratorExamples.ToCamelTrailingUnderscore | tests/test_utils.py:464 | `to_camel` row `snake_to_camel_`. |
| AliasGeneratorExamples.ToCamelDoubleUnderscores | tests/test_utils.py:465 | `to_camel` row `__snake_to_camel__`. |
| AliasGeneratorExamples.ToCamelEndsInDigit | tests/test_utils.py:466 | `to_camel` row `snake_2`. |
| AliasGeneratorExamples.ToCamelEndsInDigitLeading | tests/test_utils.py:467 | `to_camel` row `_snake_2`. |
| AliasGeneratorExamples.ToCamelEndsInDigitTrailing | tests/test_utils.py:468 | `to_camel` row `snake_2_`. |
| AliasGeneratorExamples.ToPascalSnakeToCamel | tests/test_utils.py:478 | `to_pascal` row `snake_to_camel`. |
| AliasGeneratorExamples.ToPascalSnake2Camel | tests/test_utils.py:479 | `to_pascal` row `snake_2_camel`. |
| AliasGeneratorExamples.ToPascalDigitThenLetter | tests/test_utils.py:480 | `to_pascal` row `snake2camel`. |
| AliasGeneratorExamples.ToPascalLeadingUnderscore | tests/test_utils.py:481 | `to_pascal` row `_snake_to_camel`. |
| AliasGeneratorExamples.ToPascalTrailingUnderscore | tests/test_utils.py:482 | `to_pascal` row `snake_to_camel_`. |
| AliasGeneratorExamples.ToPascalDoubleUnderscores | tests/test_utils.py:483 | `to_pascal` row `__snake_to_camel__`. |
| AliasGeneratorExamples.ToPascalEndsInDigit | tests/test_utils.py:484 | `to_pascal` row `snake_2`. |
| AliasGeneratorExamples.ToPascalEndsInDigitLeading | tests/test_utils.py:485 | `to_pascal` row `_snake_2`. |
| AliasGeneratorExamples.ToPascalEndsInDigitTrailing | tests/test_utils.py:486 | `to_pascal` row `snake_2_`. |
| AliasGeneratorExamples.ToSnakeCamelToSnakeUnchanged | tests/test_utils.py:496 | `to_snake` row `camel_to_snake`. |
| AliasGeneratorExamples.ToSnakeCamelToSnake | tests/test_utils.py:497 | `to_snake` row `camelToSnake`. |
| AliasGeneratorExamples.ToSnakeCamel2Snake | tests/test_utils.py:498 | `to_snake` row `camel2Snake`. |
| AliasGeneratorExamples.ToSnakeLeadingUnderscoreCamel | tests/test_utils.py:499 | `to_snake` row `_camelToSnake`. |
| AliasGeneratorExamples.ToSnakeTrailingUnderscoreCamel | tests/test_utils.py:500 | `to_snake` row `camelToSnake_`. |
| AliasGeneratorExamples.ToSnakeDoubleUnderscoresCamel | tests/test_utils.py:501 | `to_snake` row `__camelToSnake__`. |
| AliasGeneratorExamples.ToSnakePascalCamelToSnake | tests/test_utils.py:502 | `to_snake` row `CamelToSnake`. |
| AliasGeneratorExamples.ToSnakePascalCamel2Snake | tests/test_utils.py:503 | `to_snake` row `Camel2Snake`. |
| AliasGeneratorExamples.ToSnakeLeadingUnderscorePascal | tests/test_utils.py:504 | `to_snake` row `_CamelToSnake`. |
| AliasGeneratorExamples.ToSnakeTrailingUnderscorePascal | tests/test_utils.py:505 | `to_snake` row `CamelToSnake_`. |
| AliasGeneratorExamples.ToSnakeAcronym | tests/test_utils.py:506 | `to_snake` row `CAMELToSnake`. |
| AliasGeneratorExamples.ToSnakeDoubleUnderscoresPascal | tests/test_utils.py:507 | `to_snake` row `__CamelToSnake__`. |
| AliasGeneratorExamples.ToSnakePascalDigit | tests/test_utils.py:508 | `to_snake` row `Camel2`. |
| AliasGeneratorExamples.ToSnakePascalDigitTrailing | tests/test_utils.py:509 | `to_snake` row `Camel2_`. |
| AliasGeneratorExamples.ToSnakePascalDigitLeading | tests/test_utils.py:510 | `to_snake` row `_Camel2`. |
| AliasGeneratorExamples.ToSnakeCamelDigit | tests/test_utils.py:511 | `to_snake` row `camel2`. |
| AliasGeneratorExamples.ToSnakeCamelDigitTrailing | tests/test_utils.py:512 | `to_snake` row `camel2_`. |
| AliasGeneratorExamples.ToSnakeCamelDigitLeading | tests/test_utils.py:513 | `to_snake` row `_camel2`. |
| AliasGeneratorExamples.ToSnakeKebab | tests/test_utils.py:514 | `to_snake` row `kebab-to-snake`. |
| AliasGeneratorExamples.ToSnakeKebabCapital | tests/test_utils.py:515 | `to_snake` row `kebab-Snake`. |
| AliasGeneratorExamples.ToSnakeKebabPascal | tests/test_utils.py:516 | `to_snake` row `Kebab-Snake`. |
| AliasGeneratorExamples.ToSnakePascal | tests/test_utils.py:517 | `to_snake` row `PascalToSnake`. |
| AliasGeneratorExamples.ToSnakeSnakeUnchanged | tests/test_utils.py:518 | `to_snake` row `snake_to_snake`. |
| AliasGeneratorExamples.ToSnakeUpperThenDigit | tests/test_utils.py:519 | `to_snake` row `snakeV2`. |
| PipelineText.StripStart | tests/test_pipeline.py:21-24 | Only leading whitespace of the chosen kind is removed, and the result does not start with such whitespace. |
| PipelineText.StripEnd | tests/test_pipeline.py:21-24 | Only trailing whitespace of the chosen kind is removed, and the result does not end with such whitespace. |
| PipelineText.Strip | tests/test_pipeline.py:21-24 | The result, for `str.strip` and for `str::trim` alike, is no longer than the input and has no whitespace of that kind at either end. |
| PipelineText.StripPadded | tests/test_pipeline.py:21-24 | Stripping whitespace from around a word that neither starts nor ends with whitespace gives back the word. |
| PipelineText.StripIdempotent | tests/test_pipeline.py:21-24 | Stripping twice is stripping once. |
| PipelineText.StripsAgreeOnPadded | tests/test_pipeline.py:21-24 | Spaces, tabs and line breaks around a word are removed alike by Python's `str.strip` and by Rust's `str::trim`. |
| PipelineText.SeparatorsOnlyPythonStrips | tests/test_pipeline.py:21-24 | The separators `\x1c`-`\x1f` are whitespace to `str.strip` but not to `str::trim`. |
| PipelineText.SeparatorStrippedByPython | tests/test_pipeline.py:191 | `str.strip` removes a separator in front of a word. |
| PipelineText.SeparatorKeptByTrim | tests/test_pipeline.py:191 | `str::trim` keeps a separator in front of a word. |
| PipelineText.Upper | tests/test_pipeline.py:189 | No contract of its own; `UpperAt` states it. |
| PipelineText.LowerAt | tests/test_pipeline.py:188 | `str.lower` keeps the length and lower-cases each character. |
| PipelineText.UpperAt | tests/test_pipeline.py:189 | `str.upper` keeps the length and upper-cases each character. |
| PipelineText.CaseKeepsLength | tests/test_pipeline.py:188-189 | Lower-casing and upper-casing keep the length, so a length checked before them holds after them. |
| PipelineText.LowerKeepsTrimmed | tests/test_pipeline.py:21-24 | Lower-casing a string with no whitespace at either end keeps it so. |
| PipelineText.TitleAt | tests/test_pipeline.py:190 | `str.title` keeps the length. It upper-cases the first character, and after that a letter is upper case exactly when the character before it has no case. |
| PipelineText.CaseMappingsForget | tests/test_pipeline.py:188-189 | Lower after upper is lower, upper after lower is upper, and each is idempotent. |
| PipelineText.TitleOnlyChangesCase | tests/test_pipeline.py:190 | Title case lower-cases to the lower-cased input, and is idempotent. |
| PipelineText.AffixesAreContained | tests/test_pipeline.py:195-197 | A prefix or a suffix is contained, and so is the empty string. |
| PipelineText.SameLengthTests | tests/test_pipeline.py:210-221 | For strings of equal length, containment, prefix and suffix each hold exactly when the strings are equal. |
| PipelineText.DigitChar | tests/test_pipeline.py:224-244 | The digit character for `d` is a digit whose value is `d`. |
| PipelineText.Decimal | tests/test_pipeline.py:224-244 | `str(n)` is non-empty, has no whitespace of either kind at either end, and has no `.`. |
| PipelineText.DigitsOfNat | tests/test_pipeline.py:224-244 | The decimal digits of `n` have the value `n`. |
| PipelineText.DecimalParses | tests/test_pipeline.py:224-244 | `str(n)`, read as an optional sign and digits, is `n`. |
| PipelineText.ParseInt | tests/test_pipeline.py:224-244 | A string longer than 4300 characters once trimmed never parses. `ParseIntOfDecimal`, `ParseIntOfDecimalZeros`, `ParseIntNeedsDigit` and `SeparatorBlocksParse` state the rest. |
| PipelineText.ParseIntOfDecimal | tests/test_pipeline.py:239-242 | `str(n)` of at most 4300 characters, with any spaces, tabs or line breaks around it, parses back to `n`. |
| PipelineText.ParseIntOfBareDecimal | tests/test_pipeline.py:227 | `str(n)` of at most 4300 characters parses back to `n`. |
| PipelineText.ParseIntOfDecimalZeros | tests/test_pipeline.py:239-242 | `str(n)` followed by a `.` and any number of zeros, as `'1.0'` or `'1.'`, parses to `n` within the length limit. |
| PipelineText.ParseIntOfWordZeros | tests/test_pipeline.py:239-242 | A trimmed word without a `.`, followed by a `.` and zeros, parses as the word alone does. |
| PipelineText.ParseIntIgnoresPadding | tests/test_pipeline.py:239-244 | Trimming a string first never changes what it parses to. |
| PipelineText.ParseIntNeedsDigit | tests/test_pipeline.py:243-244 | A string without a digit does not parse. |
| PipelineText.SeparatorBlocksParse | tests/test_pipeline.py:239-244 | A separator in front of `str(n)` is not trimmed, so the string does not parse. |
| PipelineText.SeparatorBeforeWord | tests/test_pipeline.py:239-244 | The same for any trimmed word without a `.`. |
| Pipeline.ParseAs | tests/test_pipeline.py:224-236 | A valid result has the target type, and a value already of that type is kept. In strict mode, or when the target is `str`, the parse succeeds exactly for values of the type. In lax mode a string becomes an integer exactly when `ParseInt` reads one, and then it is that integer. |
| Pipeline.ParseStep | tests/test_pipeline.py:224-236 | No contract of its own: `validate_as(tp)` parses as `tp`, and `validate_as(...)` as the field type in lax mode. `ValidateAsRuns` and `BareSchemaParses` state it. |
| Pipeline.ApplyFn | tests/test_pipeline.py:184-191 | A recording transform logs `(tag, x)` and returns `x`. An arbitrary function's outcome is returned, `Invalid` where the callable raises, and nothing is logged. A string method succeeds exactly on strings. |
| Pipeline.Meets | tests/test_pipeline.py:34-156 | No contract of its own: it is the specification of the constraints. `Check` states what a constraint step does with it, and `IntervalMeetsBounds` relates an `Interval` to its bounds. |
| Pipeline.Check | tests/test_pipeline.py:34-156 | A constraint passes the value through unchanged exactly when the value meets it, and fails otherwise. |
| Pipeline.Fold | tests/test_pipeline.py:34-156 | No contract of its own. `FoldedBoundIsCheck` and `FoldedLenIsCheck` state that a bound, a divisor or a length folded into a schema checks the schema's output. `LaterBoundReplaces` shows a later bound replacing an earlier one. |
| Pipeline.RunSchema | tests/test_pipeline.py:21-24 | No contract of its own. `BareSchemaParses` states that a bare schema parses as `validate_as` does. `StripLowerRuns`, `StripFoldedBeforeLen` and `LowerWinsOverUpper` state what the folded `str` flags do. |
| Pipeline.BareSchemaParses | tests/test_pipeline.py:224-236 | A schema with nothing folded into it validates exactly as the `validate_as` step that built it. |
| Pipeline.EvalFoldedAll | tests/test_pipeline.py:21-24 | When every step after the `validate_as` folds, validation is the built schema alone, and nothing is logged. |
| Pipeline.BuiltRuns | tests/test_pipeline.py:21-24 | A pipeline that builds one schema is validated by that schema. |
| Pipeline.EvalFoldedSnoc | tests/test_pipeline.py:383-418 | A step appended after folded steps folds too when everything before it folded and it can. Otherwise it runs on the output of what came before, only if that succeeded. |
| Pipeline.FoldedBoundIsCheck | tests/test_pipeline.py:34-105 | A bound, a divisor or an interval folded into an `int` schema that has none of its bounds yet checks it after the schema's own checks. |
| Pipeline.FoldedLenIsCheck | tests/test_pipeline.py:108-156 | A length folded into a `str` schema that has no length bounds yet checks the length of what the schema outputs, stripping included. |
| Pipeline.Eval | tests/test_pipeline.py:359-418 | No contract of its own. `ThenRunsAfter`, `AndAcceptsIffBoth`, `OrAcceptsIffEither` and `Validator.ValidatePython` state it. |
| Pipeline.EvalPipe | tests/test_pipeline.py:21-24 | No contract of its own. `BuiltRuns`, `ThenRunsAfter` and `Validator.RunPipe` state it. |
| Pipeline.EvalFolded | tests/test_pipeline.py:21-24 | No contract of its own. `EvalFoldedAll`, `EvalFoldedSnoc` and `FoldSteps` state it. |
| Pipeline.EvalSteps | tests/test_pipeline.py:359-418 | No contract of its own. `EvalStepsAppend` and `Validator.RunSteps` state it. |
| Pipeline.EvalStep | tests/test_pipeline.py:359-418 | No contract of its own. `OrAcceptsIffEither`, `AndAcceptsIffBoth` and `Validator.RunStep` state it. |
| Pipeline.EvalStepsAppend | tests/test_pipeline.py:359-418 | Running steps `a + b` runs `a`, then `b` on its result only if `a` succeeded, joining the logs. |
| Pipeline.ThenRunsAfter | tests/test_pipeline.py:383-418 | A step added to a pipeline runs on the pipeline's output, after it has succeeded. The exception is a step that folds into the schema the pipeline builds: then that schema, with the step folded in, is the whole validation. |
| Pipeline.ValidateAsRuns | tests/test_pipeline.py:224-236 | A lone `validate_as` returns its parse and logs nothing. |
| Pipeline.AndIsConcatenation | tests/test_pipeline.py:366-371 | When neither side starts with `validate_as`, so that nothing folds, `l & r` behaves as the steps of `l` followed by those of `r`. |
| Pipeline.AndRunsRightOnLeft | tests/test_pipeline.py:401-418 | `l & r` runs `r` on `l`'s output, only when `l` succeeded. |
| Pipeline.AndAcceptsIffBoth | tests/test_pipeline.py:366-418 | `l & r` succeeds exactly when `l` succeeds and `r` accepts its output. A failing `l` is the whole run. The log is `l`'s followed by `r`'s. |
| Pipeline.OrAcceptsIffEither | tests/test_pipeline.py:360-399 | `l \| r` succeeds exactly when one side does. A successful `l` is the whole run. Otherwise `r`'s outcome is returned, after both sides' logs. |
| Pipeline.OrAssociative | tests/test_pipeline.py:359-418 | `(a \| b) \| c` and `a \| (b \| c)` give the same outcome and log. |
| Pipeline.AndAssociative | tests/test_pipeline.py:359-418 | `(a & b) & c` and `a & (b & c)` give the same outcome and log. |
| Pipeline.AllMeetAppend | tests/test_pipeline.py:84-105 | Meeting the constraints `a + b` is meeting `a` and meeting `b`. |
| Pipeline.ConstraintsOnlyFilter | tests/test_pipeline.py:34-156 | A chain of constraints logs nothing and passes the value through exactly when it meets them all. |
| Pipeline.IntervalMeetsBounds | tests/test_pipeline.py:84-105 | An `Interval` is met exactly when each of its given bounds, as a separate comparison, is met. |
| Pipeline.IntervalIsItsBounds | tests/test_pipeline.py:84-105 | Constraining by an `Interval` runs like constraining by its given bounds one after another. |
| Pipeline.TruthyBounds | tests/test_pipeline.py:84-105 | The bounds `_apply_constraint` applies as written are never more than the interval's bounds, and are exactly those when no bound is 0. |
| Pipeline.ZeroBoundDropped | tests/test_pipeline.py:87 | As written, `Interval(ge=0, le=10)` applies only `le(10)`, which -1 meets, although the interval excludes -1. |
| Pipeline.IntegerBoundsShift | tests/test_pipeline.py:34-105 | On integers `ge(n)` is `gt(n - 1)`, `le(n)` is `lt(n + 1)`, and an open interval is the closed one shrunk by one at each end. |
| Pipeline.MembershipForms | tests/test_pipeline.py:331-356 | `eq(w)` is `in_([w])` and `not_eq(w)` is `not_in([w])`. `in_` and `not_in` always disagree. |
| Pipeline.AffixChecksImplyContains | tests/test_pipeline.py:195-197 | Whatever passes `str_starts_with(p)` or `str_ends_with(p)` also passes `str_contains(p)`. |
| Pipeline.StripLowerIdempotent | tests/test_pipeline.py:21-24 | Trimming with `str::trim` and then lower-casing, as a `str` schema with both flags does, changes nothing more when done again. |
| Pipeline.ParseIntModes | tests/test_pipeline.py:224-236 | Strict `int` refuses every string and keeps every integer. Lax `int` reads `str(n)` of at most 4300 characters with spaces, tabs or line breaks around it. |
| Pipeline.LaxParse | tests/test_pipeline.py:224-236 | A lax `int` step on a string succeeds exactly when `ParseInt` reads an integer, and returns that integer. |
| Pipeline.FoldSteps | tests/test_pipeline.py:21-24 | The folding loop stops at the end or at the first step that does not fold into the schema built so far, and what is left to validate is what was left at the start. |
| Pipeline.Validator.constructor | tests/test_pipeline.py:374 | A new validator starts with an empty call log. |
| Pipeline.Validator.Clear | tests/test_pipeline.py:392-399 | `calls.clear()` empties the log. |
| Pipeline.Validator.ValidatePython | tests/test_pipeline.py:374-418 | Returns `Eval`'s outcome and appends `Eval`'s log to the shared list. |
| Pipeline.Validator.RunPipe | tests/test_pipeline.py:374-418 | A pipeline, with its leading schema and folded steps, returns `EvalPipe`'s outcome and appends its log. |
| Pipeline.Validator.RunSteps | tests/test_pipeline.py:374-418 | The loop over a pipeline's steps returns `EvalSteps`'s outcome and appends its log. |
| Pipeline.Validator.RunStep | tests/test_pipeline.py:374-418 | One step, unions and chains included, returns `EvalStep`'s outcome and appends its log. |
| PipelineExamples.ParseThenStep | tests/test_pipeline.py:184-256 | `validate_as(...)` followed by one step: a step that folds gives the schema with it folded in. Any other step runs on the parsed value, or the parse failure is the result. |
| PipelineExamples.FreshFoldIsStep | tests/test_pipeline.py:184-207 | On a value already of the type, a step other than `str_strip()` folded into a fresh schema does what the step does on its own. |
| PipelineExamples.StepAfterParse | tests/test_pipeline.py:184-256 | A value that already has the field type reaches any next step other than `str_strip()` unchanged. |
| PipelineExamples.StripLowerRuns | tests/test_pipeline.py:21-24 | `validate_as(...).str_strip().str_lower()` folds into one `str` schema. It returns the string trimmed as `str::trim` does, then lower-cased. |
| PipelineExamples.StripLowerOfPadded | tests/test_pipeline.py:21-24 | Spaces, tabs and line breaks around a word are removed before lower-casing. |
| PipelineExamples.PotatoSpellings | tests/test_pipeline.py:21-24 | `potato`, `POTATO` and `PoTatO` lower-case to `potato`, and `potato` upper-cases to `POTATO`. |
| PipelineExamples.ParseStrRows | tests/test_pipeline.py:21-24 | Every spelling of the test, with any spaces, tabs or line breaks around it, gives `potato`. |
| PipelineExamples.ConstrainedInt | tests/test_pipeline.py:34-105 | After parsing an integer, a constraint accepts exactly the integers that meet it. |
| PipelineExamples.ConstrainedStr | tests/test_pipeline.py:108-156 | After parsing a string, a constraint accepts exactly the strings that meet it. |
| PipelineExamples.ComparisonRows | tests/test_pipeline.py:37-46 | `ge(0)`, `le(5)`, `gt(0)` and `lt(5)` accept and reject exactly as their bounds say, for every integer. |
| PipelineExamples.MultipleOfRows | tests/test_pipeline.py:62-81 | `multiple_of(5)` accepts exactly the multiples of 5. |
| PipelineExamples.IntervalRows | tests/test_pipeline.py:87-105 | `Interval(ge=0, le=10)` and `Interval(gt=1, lt=5)` accept exactly their ranges. |
| PipelineExamples.IntervalZeroBoundAsWritten | tests/test_pipeline.py:87 | With only the bounds `_apply_constraint` applies as written, -1 passes `Interval(ge=0, le=10)`. With every given bound applied, it fails. |
| PipelineExamples.LaterBoundReplaces | tests/test_pipeline.py:43 | `gt(5)` followed by `gt(1)` folds into one `int` schema, which accepts exactly the integers above 1: the later bound replaces the earlier one. |
| PipelineExamples.LenRows | tests/test_pipeline.py:111-156 | `len(lo, hi)` on strings accepts exactly the lengths between the bounds. Without an upper bound, any length of at least `lo` is accepted. |
| PipelineExamples.LenThenStripRuns | tests/test_pipeline.py:108-156 | `validate_as(str).len(2, 5).str_strip()` checks the length of the trimmed word, whatever spaces, tabs or line breaks surround it. |
| PipelineExamples.LenThenStripInOrder | tests/test_pipeline.py:108-156 | The same two steps run one after another check the length of the padded string first. |
| PipelineExamples.StripFoldedBeforeLen | tests/test_pipeline.py:108-156 | So the pipeline refuses `" a "`, which the steps run in order would turn into `"a"`. |
| PipelineExamples.LowerWinsOverUpper | tests/test_pipeline.py:188-189 | With both case flags folded into one schema, lower-casing wins in either order. |
| PipelineExamples.TitleRestOfLowerWord | tests/test_pipeline.py:190 | Title case keeps the rest of a lower-case word. |
| PipelineExamples.TitleRestOfLowerWords | tests/test_pipeline.py:190 | After a space, title case capitalises the next lower-case word. |
| PipelineExamples.TitleOfLowerWords | tests/test_pipeline.py:190 | Two lower-case words are both capitalised. |
| PipelineExamples.TitleSpelling | tests/test_pipeline.py:190 | `'potato potato'.title() == 'Potato Potato'`. |
| PipelineExamples.StrMethodRuns | tests/test_pipeline.py:184-207 | After `validate_as(str)`, `str_lower()`, `str_upper()` and `str_title()` return the method's result. `str_strip()` folds and returns the string trimmed as `str::trim` does. |
| PipelineExamples.StrStripRuns | tests/test_pipeline.py:191 | For any field type, `validate_as(str).str_strip()` returns the string trimmed as `str::trim` does. |
| PipelineExamples.StringCaseRows | tests/test_pipeline.py:188-190 | The `lower`, `upper` and `title` rows. |
| PipelineExamples.StringStripRow | tests/test_pipeline.py:191 | The `strip` row, for any spaces, tabs or line breaks around `potato`. |
| PipelineExamples.SeparatorSurvivesStrip | tests/test_pipeline.py:191 | A separator `\x1c`-`\x1f` in front of a word survives the folded `str_strip()`, although Python's `str.strip` on its own removes it. |
| PipelineExamples.StringPredicateAccepts | tests/test_pipeline.py:195-197 | A string starting with, ending with or containing the argument passes the corresponding check unchanged. |
| PipelineExamples.StringPredicateRejects | tests/test_pipeline.py:210-221 | A different string of the same length fails all three checks. |
| PipelineExamples.StringPredicateRows | tests/test_pipeline.py:195-221 | The `pot`/`ato` rows pass and the `tomato` rows fail. |
| PipelineExamples.ParsesOne | tests/test_pipeline.py:227 | The string `1` parses as 1. |
| PipelineExamples.ParseIntRows | tests/test_pipeline.py:225-236 | Lax and strict `validate_as(int).gt(0)` accept exactly the positive integers. |
| PipelineExamples.ParseIntStrRows | tests/test_pipeline.py:227-234 | Lax mode takes `'1'` to 1. Strict mode refuses every string. |
| PipelineExamples.PositiveLaxTakesOne | tests/test_pipeline.py:227 | Lax `validate_as(int).gt(0)` takes `'1'` to 1 and logs nothing. |
| PipelineExamples.PositiveStrictRejects | tests/test_pipeline.py:233-234 | Strict `validate_as(int, strict=True).gt(0)` refuses every string. |
| PipelineExamples.StrippedIntRuns | tests/test_pipeline.py:239-244 | `validate_as(str).str_strip().validate_as(int)` parses, in lax mode, the string trimmed as `str::trim` does. |
| PipelineExamples.ParseAfterValid | tests/test_pipeline.py:239-244 | A `validate_as` after a pipeline that gives `u` and logs nothing parses `u`. |
| PipelineExamples.StrippedIntOfDecimal | tests/test_pipeline.py:241-242 | Every decimal integer of at most 4300 characters, with or without spaces, tabs or line breaks around it, comes out as that integer. |
| PipelineExamples.StrippedIntNeedsDigit | tests/test_pipeline.py:243-244 | A string without a digit fails. |
| PipelineExamples.SeparatorBlocksIntParse | tests/test_pipeline.py:224-236 | Lax `validate_as(int)` refuses a decimal integer with a separator in front of it. |
| PipelineExamples.EllipsisAfterRuns | tests/test_pipeline.py:421-426 | With a final `validate_as(...)`, the earlier `validate_as(str)` and transform still run. A transform that raises fails the pipeline; otherwise its result is parsed as the field type. |
| PipelineExamples.EllipsisKeepsTransform | tests/test_pipeline.py:421-426 | When the transform leaves a decimal numeral within the length limit, the field gets that number. |
| PipelineExamples.PredicateRows | tests/test_pipeline.py:247-256 | The even-number and not-`potato` predicates accept exactly the values they describe. |
| PipelineExamples.EqualityRows | tests/test_pipeline.py:331-342 | `eq('potato')` accepts only `potato`, and `not_eq('potato')` accepts everything else. |
| PipelineExamples.MembershipRows | tests/test_pipeline.py:345-356 | `in_` accepts exactly `potato` and `tomato`, and `not_in` accepts exactly everything else. |
| PipelineExamples.TransformFirstStepRow | tests/test_pipeline.py:325-328 | `transform(lambda x: x + 1)` parses `'1'` as the field's `int` first, then gives 2. |
| PipelineExamples.CompositionRows | tests/test_pipeline.py:360-371 | `gt(10) \| lt(5)` accepts exactly `i > 10` or `i < 5`. `gt(10) & le(20)` accepts exactly `10 < i <= 20`. |
| PipelineExamples.AndOfStripRuns | tests/test_pipeline.py:401-418 | In `validate_as(str) & validate_as(str).str_strip()` the right side builds its own schema, so the string is trimmed as `str::trim` does. |
| PipelineExamples.AndAfterValid | tests/test_pipeline.py:401-418 | The right side of `l & r` runs on what the left side gives when the left logs nothing. |
| PipelineExamples.ConcatenatedStripRuns | tests/test_pipeline.py:401-418 | The same steps in one pipeline: the second `validate_as` ends the folding, so `str_strip()` runs as Python's `str.strip`. |
| PipelineExamples.AndIsNotConcatenation | tests/test_pipeline.py:401-418 | So `&` is not the concatenation of steps: on a word with a separator in front, the two give different strings. |
| PipelineExamples.LoggedRuns | tests/test_pipeline.py:383-399 | A logged branch logs its first transform always, and its second only when the bound holds. |
| PipelineExamples.LoggedEitherRows | tests/test_pipeline.py:383-399 | For every integer, the union's outcome and log: `[1, 2]` above 10; `[1, 3, 4]` below 5; a failure with `[1, 3]` otherwise. |
| PipelineExamples.LoggedBothRows | tests/test_pipeline.py:401-418 | For every integer, the chain's outcome and log: a failure with `[1]` up to 10; `[1, 2, 3, 4]` up to 20; a failure with `[1, 2, 3]` above. |
| PipelineExamples.LoggedEitherInPlace | tests/test_pipeline.py:383-399 | Through one `Validator`, cleared after each call, the logs are those of the test. |

## Findings

| source | as written | input that shows it | evidently intended | confidence | as-written member | corrected member |
|---|---|---|---|---|---|---|
| tests/test_pipeline.py:87 | `_apply_constraint` applies each bound of an `Interval` only when the bound is truthy, so a bound of 0 is dropped. | `validate_as(int).constrain(Interval(ge=0, le=10))` on -1: only `le(10)` is applied, and -1 passes. | Every given bound applies, so -1 fails. | not executed; the guard is in `pydantic/experimental/pipeline.py`, which is not part of this model | Pipeline.ZeroBoundDropped | PipelineExamples.IntervalRows |

`Pipeline.TruthyBounds` models the guard as written, and `PipelineExamples.IntervalZeroBoundAsWritten` runs it on -1. The rest of the model, `Meets` and `Fold` included, applies every given bound, and `Pipeline.IntervalMeetsBounds` and `PipelineExamples.IntervalRows` are proved on that definition.

## Left out

- Error messages and `str`/`repr` output are not modelled. A `TypeError` is one of three constructors, and a validation error is `Invalid`.
- Characters are ASCII. Python's Unicode case mappings, `str.title`'s Unicode rules and Unicode whitespace beyond ASCII are not modelled, for `str.strip` and for `str::trim` alike.
- Python dicts remember insertion order; Dafny maps do not. The normalisation of a sequence specification takes the dict's iteration order as an explicit `order` argument.
- `UtilsExamples.Itself`: the examples name elements by themselves where `unique_list`'s default `name_factory` is `str`. This is exact only because each example list holds values of one type, on which `str` is injective. Mixed lists such as `[1, '1']`, which `str` would merge, are not modelled by the examples.
- `deep_update` is modelled on immutable values, so the rule that the input is not mutated holds by construction.
- `all_identical` compares objects by reference: every object, a list included, is a `PyObject`, and a list written anew in the test is a new object.
- The pipeline covers only `int` and `str`. `float`, `Decimal`, dates and timezones (`test_parse_tz`, `test_tz_constraints`), `str_pattern` (regular expressions), and `len` on lists, tuples, sets, frozensets and dicts are left out.
- `EllipsisAfterRuns`: the test at tests/test_pipeline.py:421-426 uses a `float` field and `v.split()[0]`. The model states the same ordering for an `int` field and any transform.
- JSON schema generation (`test_json_schema`) is left out. Folding is modelled for the `int` and `str` schemas only.
- The union is tried left first and stops at the first success, as the call logs in the tests show. pydantic's smart-mode choice between several successes is left out.
- ParseAs: the lax `int` parse covers surrounding whitespace, an optional sign, decimal digits, a `.` followed only by zeros and the 4300-character limit. It does not accept `_` separators, and floats and booleans as input values are not modelled.
- A string method called on a non-string, and a `transform` callable that raises, give `Invalid`. A user callable is a function to an outcome, so which exception it raises is not modelled.
- `MultipleOf(0)` fails every value: Python would raise. `Len` is checked only on strings, and comparisons only on integers.
- `validate_as(...)` with the field's own type ignores its strict flag and parses in lax mode.
- Check: an `Interval` bound of 0 is applied like any other bound. As written, pydantic drops it (see Findings); the model states the evidently intended semantics.
- IntervalMeetsBounds: stated for the intended semantics. As written it holds only when no bound is 0, which `Pipeline.TruthyBounds` states.
- IntervalIsItsBounds: stated for the intended semantics, for the same reason.
- IntervalRows: the `Interval(ge=0, le=10)` row is proved for the intended semantics. As written, values below 0 pass too (`PipelineExamples.IntervalZeroBoundAsWritten`).
- ConstrainedInt: for an `Interval` with a bound of 0, it states the intended semantics.
- FoldedBoundIsCheck: for an `Interval` with a bound of 0, it states the intended semantics.
- AndIsConcatenation: holds only when neither side starts with `validate_as`. Otherwise folding makes `&` differ from the concatenated steps, as `PipelineExamples.AndIsNotConcatenation` shows.
- `import_string`, `lenient_issubclass`, `smart_deepcopy`, `get_origin`, `PydanticUndefined` pickling and the other helpers in tests/test_utils.py are outside the modelled core.
