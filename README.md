# util-args in Dafny

util-args turns a command-line token array into option values and binds them
onto the annotated fields of one or more target objects. It follows a subset
of the POSIX.1-2008 Utility Conventions (Base Definitions, chapter 12): grouped
single-character flags (Guideline 5 of section 12.2) and the `--`
end-of-options delimiter (Guideline 10 of section 12.2).

The project models two generations of the logic.

**The current pipeline:**

- `ArgumentsParser` (`arguments_parser.dfy`): a scanner that takes one token
  per step. Each token is looked at as a possible key, with the next token as
  its candidate value. It builds a map from option name to a duplicate-free
  value list. The reserved key `--` holds the joined operand tail.
- `ValuesSelector` (`values_selector.dfy`): merges the values found under an
  option's primary and alternative names. Order is kept and duplicates are
  dropped.
- `Binding` (`binder.dfy`, the `Binder` class): decides what a field gets,
  by the field's kind (boolean, List, Set, array or scalar). It uses a
  first/last/error selection policy and reports values it cannot map. The
  field write is a `FieldSlot`, a settable slot that can refuse a write.
- `BaseMapper` (`base_mapper.dfy`): the string-to-type fallback chain. It
  returns the string itself for a String target, otherwise tries a static
  `valueOf`, then a String constructor, and otherwise gives null. The
  reflective lookups and calls are the `Reflection` parameter.
- `OperandsResolver` (`operands_resolver.dfy`): recomputes where the operands
  begin, from the declared short and long names, split into boolean and
  non-boolean ones.

**The legacy and experimental code:**

- `LegacyProcessor` (`argument_processor.dfy`, the `ArgumentProcessor`
  class): a stateful parser over declared single-character options. It moves
  an index by hand and keeps an operands boundary. A value that parses as a
  number is accepted even when it starts with a dash. It also checks boolean
  groups, and binds through a chain of binders that stops at the first
  success.
- `ArgumentProcessor2` (`argument_processor2.dfy`): a simpler parser that
  keeps repeated values.
- `ParameterModel` (`parameter.dfy`): the legacy option/argument/field
  holder and its `compareTo` order.

**Shared modules:**

- `Common` holds Option/Result, the Java string operations the code relies
  on (`String.join`, `trim`, `equalsIgnoreCase`) and the order-preserving
  dedup a `LinkedHashSet` performs.
- `JavaTypes` holds the Java types a field can have, the values bound to
  fields and the exceptions.

**How the model is built:**

- Each loop in the source is a method with loop invariants. Its `ensures`
  ties the result, or the new object state, to a recursive function that
  follows the loop token by token.
- The source's promises are lemmas about those functions.
- Fields that the source updates in place (`Binder`, `Parameter`,
  `ArgumentProcessor`) are class fields, with `modifies` frames on the
  methods that change them.
- `ArgumentProcessor` carries one ghost field, `fields`: each declared
  option's field. It lets the contracts speak of the declared options
  without reading every parameter object. `Valid()` ties it to the
  parameters.

**Where the code differs from the natural reading of its design** (the
model follows the code throughout):

- `ArgumentsParser.parse` advances one token per step. A long option records
  the next token whatever it looks like, and that token is then examined again
  as a key (`ArgumentsParser.ValueReexaminedAsKey`).
- A `--` followed by the empty string records nothing, even when more tokens
  follow it.
- `Binder.selectValue` fails whenever both preferences are off, also for a
  single value (`Binding.BothOffRefusesEvenOne`).
- The boolean check comes before the List/Set/array checks.
- `OperandsResolver.resolve` throws from `Arrays.copyOfRange` when the last
  token is a declared option that takes a value. The model gives
  `Failure(IllegalArgumentException)` in that case
  (`OperandsResolver.FailsIffValueMissing`).
- `ArgumentsParser` records a value under the reserved key `--` for a long
  option spelled `----` (`ArgumentsParser.ReservedKeyOnlyFromLongDashes`).
- In `ArgumentProcessor2`, a `--` followed by "" falls through to the
  short-option rule and records "" under the key `-`.
- In `ArgumentProcessor`, a non-boolean option given as the last token moves
  the operands index to one past the end, and `getOperands` then returns "".

## Model

| member | source | states |
|---|---|---|
| ArgumentsParser.Get | src/main/java/com/nilcaream/utilargs/ArgumentsParser.java:69-75 | the token at the index, or "" when the index is past the end |
| ArgumentsParser.AddSpec | src/main/java/com/nilcaream/utilargs/ArgumentsParser.java:62-67 | the keys grow by exactly the given key and other keys keep their lists; the value is in the key's list afterwards; an existing list only grows at its end, by at most one; a new key gets exactly [value] |
| ArgumentsParser.AddWellFormed | src/main/java/com/nilcaream/utilargs/ArgumentsParser.java:62-67 | because the value is appended only when absent, lists without duplicates stay without duplicates and non-empty |
| ArgumentsParser.AddFlagsExtends | src/main/java/com/nilcaream/utilargs/ArgumentsParser.java:53-56 | the flag-group loop loses no key and no value already recorded |
| ArgumentsParser.AddFlagsNewKeys | src/main/java/com/nilcaream/utilargs/ArgumentsParser.java:53-56 | the flag-group loop only adds one-character keys |
| ArgumentsParser.AddFlagRecorded | src/main/java/com/nilcaream/utilargs/ArgumentsParser.java:53-56 | every character of a group is recorded as a key holding "true" |
| ArgumentsParser.AddFlagsWellFormed | src/main/java/com/nilcaream/utilargs/ArgumentsParser.java:53-56 | the flag-group loop keeps every list non-empty and duplicate-free |
| ArgumentsParser.Parse | src/main/java/com/nilcaream/utilargs/ArgumentsParser.java:36-60 | the loop with its break computes the token-by-token scan, and its result has non-empty, duplicate-free lists |
| ArgumentsParser.RecordToken | src/main/java/com/nilcaream/utilargs/ArgumentsParser.java:47-57 | one iteration on a token other than `--` updates the map as one step of the scan |
| ArgumentsParser.AddFlagGroup | src/main/java/com/nilcaream/utilargs/ArgumentsParser.java:54-56 | the loop over the group's characters adds "true" under each one-character key, in order |
| ArgumentsParser.ParseFromSplit | src/main/java/com/nilcaream/utilargs/ArgumentsParser.java:38-58 | before the first `--`, the scan can be split at any token: scanning a prefix and then continuing gives the same map |
| ArgumentsParser.PrefixThenRest | src/main/java/com/nilcaream/utilargs/ArgumentsParser.java:38-58 | the whole parse is the scan of a `--`-free prefix followed by the scan of the rest |
| ArgumentsParser.ParseFromExtends | src/main/java/com/nilcaream/utilargs/ArgumentsParser.java:38-58 | later tokens never remove a key or a value, so every list keeps first-insertion order |
| ArgumentsParser.RecordExtends | src/main/java/com/nilcaream/utilargs/ArgumentsParser.java:47-57 | one iteration loses no key or value |
| ArgumentsParser.RecordWellFormed | src/main/java/com/nilcaream/utilargs/ArgumentsParser.java:47-57 | one iteration keeps every list non-empty and duplicate-free |
| ArgumentsParser.ParseFromWellFormed | src/main/java/com/nilcaream/utilargs/ArgumentsParser.java:38-58 | the remaining scan keeps every list non-empty and duplicate-free |
| ArgumentsParser.ParsedWellFormed | src/main/java/com/nilcaream/utilargs/ArgumentsParser.java:36-67 | every key of the parse result has a non-empty list with no duplicates |
| ArgumentsParser.DelimiterStopsScan | src/main/java/com/nilcaream/utilargs/ArgumentsParser.java:41-46 | at the first `--`: if a non-empty token follows, the rest joined by single spaces is added under `--`, otherwise nothing is added; in both cases nothing after it is scanned |
| ArgumentsParser.ReservedKeyOnlyFromLongDashes | src/main/java/com/nilcaream/utilargs/ArgumentsParser.java:47-48 | before the delimiter, only a `----` token can record under the reserved key `--` |
| ArgumentsParser.DelimiterSingleValue | src/main/java/com/nilcaream/utilargs/ArgumentsParser.java:41-46 | `--` followed by a non-empty token gives the key `--` exactly one value: all following tokens joined by " " |
| ArgumentsParser.ScanPrefixReadsPrefix | src/main/java/com/nilcaream/utilargs/ArgumentsParser.java:38-40 | the scan of the first n tokens depends only on tokens 0..n, the last one read as a candidate value |
| ArgumentsParser.OperandsDoNotLeak | src/main/java/com/nilcaream/utilargs/ArgumentsParser.java:41-46 | two token arrays that agree up to the first `--` give the same map apart from the `--` entry: tokens after the delimiter affect no other key |
| ArgumentsParser.ShortOptionRecorded | src/main/java/com/nilcaream/utilargs/ArgumentsParser.java:49-52 | a two-character `-x` records "true" when the next token is absent, "" or `--`, and otherwise the next token verbatim, even one that looks like an option |
| ArgumentsParser.LongOptionRecorded | src/main/java/com/nilcaream/utilargs/ArgumentsParser.java:47-48 | `--name` records the next token, or "" when it is last, under name, with no check on what that token looks like |
| ArgumentsParser.FlagGroupRecorded | src/main/java/com/nilcaream/utilargs/ArgumentsParser.java:53-56 | `-abc` records "true" under each one-character key a, b and c |
| ArgumentsParser.IgnoredTokenAddsNothing | src/main/java/com/nilcaream/utilargs/ArgumentsParser.java:41-57 | a token not starting with `-`, or the lone `-`, adds nothing; the scan moves on to the next token |
| ArgumentsParser.ValueReexaminedAsKey | src/main/java/com/nilcaream/utilargs/ArgumentsParser.java:38-52 | in `-b -a`, b records "-a" and then -a is examined as a key itself |
| ArgumentsParser.ValueReexaminedExample | src/test/java/com/nilcaream/utilargs/ArgumentsParserTest.java:141-149 | `["--a","test a","-b","-a"]` parses to a -> ["test a","true"], b -> ["-a"] |
| ArgumentsParser.ExampleSteps | src/main/java/com/nilcaream/utilargs/ArgumentsParser.java:47-57 | the four iterations of that example, one token each |
| ArgumentsParser.ExampleLong | src/main/java/com/nilcaream/utilargs/ArgumentsParser.java:47-48 | `--a` followed by "test a" records a -> ["test a"] |
| ArgumentsParser.ExampleOperandLike | src/main/java/com/nilcaream/utilargs/ArgumentsParser.java:39-57 | the value token "test a", examined as a key, adds nothing |
| ArgumentsParser.ExampleShortWithValue | src/main/java/com/nilcaream/utilargs/ArgumentsParser.java:51-52 | `-b` followed by "-a" records b -> ["-a"] |
| ArgumentsParser.ExampleShortLast | src/main/java/com/nilcaream/utilargs/ArgumentsParser.java:49-50 | a last `-a` appends "true" to a's list |
| ValuesSelector.Lookup | src/main/java/com/nilcaream/utilargs/ValuesSelector.java:41 | `Map.get` is present exactly when the key is, and then is that key's list |
| ValuesSelector.CombineValues | src/main/java/com/nilcaream/utilargs/ValuesSelector.java:44-53 | the result is null exactly when both lists are null |
| ValuesSelector.Select | src/main/java/com/nilcaream/utilargs/ValuesSelector.java:40-42 | the result is absent exactly when neither name is a key; an empty list is not absent |
| ValuesSelector.OtherKeysIgnored | src/main/java/com/nilcaream/utilargs/ValuesSelector.java:40-42 | maps that agree on the two names give the same selection |
| ValuesSelector.UnrelatedKeyIgnored | src/main/java/com/nilcaream/utilargs/ValuesSelector.java:40-42 | setting any other key leaves the selection unchanged |
| ValuesSelector.SelectedElements | src/main/java/com/nilcaream/utilargs/ValuesSelector.java:48-51 | the selection has no duplicates, and a value is in it exactly when it is in either list |
| ValuesSelector.PrimaryValuesFirst | src/main/java/com/nilcaream/utilargs/ValuesSelector.java:48-51 | the primary name's values, deduplicated, are a prefix of the selection |
| ValuesSelector.SelectedOrder | src/main/java/com/nilcaream/utilargs/ValuesSelector.java:48-51 | the selection lists values in the order of their first occurrence in the primary list followed by the alternative list |
| ValuesSelector.DistinctAbsorbs | src/main/java/com/nilcaream/utilargs/ValuesSelector.java:49-50 | adding values that are already present changes nothing |
| ValuesSelector.OnlyPrimaryGiven | src/main/java/com/nilcaream/utilargs/ValuesSelector.java:49-51 | with only the primary name present, the result is its list without duplicates |
| ValuesSelector.OnlyAlternativeGiven | src/main/java/com/nilcaream/utilargs/ValuesSelector.java:49-51 | with only the alternative name present, the result is its list without duplicates |
| ValuesSelector.SameNameTwice | src/main/java/com/nilcaream/utilargs/ValuesSelector.java:40-51 | when both names are the same key, the result is that list without duplicates |
| ValuesSelector.ParsedValuesKept | src/main/java/com/nilcaream/utilargs/ValuesSelector.java:40-51 | on a parse result with only the primary name present, the selection is the parsed list unchanged |
| Common.DistinctElements | src/main/java/com/nilcaream/utilargs/ValuesSelector.java:48-51 | the LinkedHashSet copy has no duplicates and holds exactly the input's elements |
| Common.DistinctOrder | src/main/java/com/nilcaream/utilargs/ValuesSelector.java:48-51 | the LinkedHashSet copy keeps first-occurrence order |
| BaseMapper.ToUpper | src/main/java/com/nilcaream/utilargs/BaseMapper.java:120 | an ASCII lower-case letter becomes its upper-case letter; any other character is unchanged |
| BaseMapper.ToCamelCase | src/main/java/com/nilcaream/utilargs/BaseMapper.java:119-121 | same length, the first character upper-cased, the rest unchanged |
| BaseMapper.WrappingClassNames | src/main/java/com/nilcaream/utilargs/BaseMapper.java:103-117 | int gives Integer, char gives Character, and every other primitive name gives its first letter upper-cased (Boolean, Long, ...) |
| BaseMapper.GetType | src/main/java/com/nilcaream/utilargs/BaseMapper.java:95-101 | a primitive type is looked up as `java.lang.` plus its wrapper name; any other type is itself |
| BaseMapper.GetParameterType | src/main/java/com/nilcaream/utilargs/BaseMapper.java:123-133 | the valueOf parameter type is char exactly for character types, and String exactly for all others |
| BaseMapper.GetArgument | src/main/java/com/nilcaream/utilargs/BaseMapper.java:83-93 | a character type gets its one character and a value of any other length gives null; other types get the string itself |
| BaseMapper.TryStaticValueOf | src/main/java/com/nilcaream/utilargs/BaseMapper.java:56-70 | when the type resolves, a static valueOf exists and the argument is not null, the result is that method's invocation on the argument; in no other case is there a result |
| BaseMapper.Map | src/main/java/com/nilcaream/utilargs/BaseMapper.java:42-54 | a String target gets the value itself; otherwise valueOf's result when there is one, and the String constructor's otherwise |
| BaseMapper.StringIsIdentity | src/main/java/com/nilcaream/utilargs/BaseMapper.java:44-46 | a String target returns the input, whatever reflection offers |
| BaseMapper.ValueOfShadowsConstructor | src/main/java/com/nilcaream/utilargs/BaseMapper.java:47-52 | once valueOf succeeds, the constructor is never consulted |
| BaseMapper.UnsupportedTypeIsNull | src/main/java/com/nilcaream/utilargs/BaseMapper.java:66-80 | with no usable valueOf and no String constructor the result is null, not an exception |
| BaseMapper.CharacterNeedsOneChar | src/main/java/com/nilcaream/utilargs/BaseMapper.java:63 | for a character type and a value not of length 1, the valueOf path gives null and only the constructor is left |
| BaseMapper.PrimitiveUsesWrapper | src/main/java/com/nilcaream/utilargs/BaseMapper.java:59-64 | a primitive is converted through its wrapper class's static valueOf |
| Binding.EnsureType | src/main/java/com/nilcaream/utilargs/Binder.java:75-82 | success exactly when the mapper gives a value, and then that value; otherwise "Cannot map <value> to <class>" |
| Binding.SelectValue | src/main/java/com/nilcaream/utilargs/Binder.java:84-92 | with useFirst the first value; otherwise with useLast the last value; with both off the "Cannot select single value from [v1,v2,...]" exception; success exactly when one of the two is on |
| Binding.FirstWins | src/main/java/com/nilcaream/utilargs/Binder.java:85-86 | with useFirst, the first value |
| Binding.LastWhenFirstOff | src/main/java/com/nilcaream/utilargs/Binder.java:87-88 | with only useLast, the last value |
| Binding.BothOffRefusesEvenOne | src/main/java/com/nilcaream/utilargs/Binder.java:89-90 | with both off, even a single value fails, with the message listing it |
| Binding.MapAllSuccess | src/main/java/com/nilcaream/utilargs/Binder.java:59-65 | the array fills exactly when every value maps, and then element i is the mapped value i |
| Binding.MapAllFailure | src/main/java/com/nilcaream/utilargs/Binder.java:62-64 | the array fails with the first value that does not map |
| Binding.MapAllFailurePropagates | src/main/java/com/nilcaream/utilargs/Binder.java:62-64 | once a prefix fails, the whole fill fails the same way |
| Binding.FillArray | src/main/java/com/nilcaream/utilargs/Binder.java:59-65 | the loop over a fresh array of the values' length computes the element-wise mapping or its first failure |
| Binding.NoValuesNoChange | src/main/java/com/nilcaream/utilargs/Binder.java:51-52 | null or empty values resolve to nothing |
| Binding.BooleanIsTrue | src/main/java/com/nilcaream/utilargs/Binder.java:53-54 | a boolean field gets true whatever the values are |
| Binding.ListGetsValues | src/main/java/com/nilcaream/utilargs/Binder.java:55-56 | a List field gets the values unconverted and in order |
| Binding.SetGetsDistinctValues | src/main/java/com/nilcaream/utilargs/Binder.java:57-58 | a Set field gets an insertion-ordered copy without duplicates, holding exactly the values |
| Binding.ArrayElementwise | src/main/java/com/nilcaream/utilargs/Binder.java:59-65 | an array field gets one element per value, each mapped to the component type, or the mapping failure |
| Binding.ArrayFirstFailure | src/main/java/com/nilcaream/utilargs/Binder.java:59-65 | an array fails with the first unmappable value |
| Binding.ScalarMapsSelected | src/main/java/com/nilcaream/utilargs/Binder.java:66-67 | a scalar field gets the mapping of the first value, or of the last when useFirst is off |
| Binding.FieldSlot.Set | src/main/java/com/nilcaream/utilargs/Binder.java:45-46 | the field write fails with IllegalAccessException on a field that cannot be written and with IllegalArgumentException on a value of the wrong type, leaving the field unchanged, and otherwise stores the value |
| Binding.Binder.constructor | src/main/java/com/nilcaream/utilargs/Binder.java:30-32 | both preferences on, and the base mapper as mapper |
| Binding.Binder.WithUseFirst | src/main/java/com/nilcaream/utilargs/Binder.java:101-104 | sets useFirst only and returns the same binder |
| Binding.Binder.WithUseLast | src/main/java/com/nilcaream/utilargs/Binder.java:114-117 | sets useLast only and returns the same binder |
| Binding.Binder.WithMapper | src/main/java/com/nilcaream/utilargs/Binder.java:125-128 | sets the mapper only and returns the same binder |
| Binding.Binder.Resolve | src/main/java/com/nilcaream/utilargs/Binder.java:50-69 | the type dispatch under the binder's current policy and mapper |
| Binding.Binder.Bind | src/main/java/com/nilcaream/utilargs/Binder.java:42-48 | no value leaves the field alone; a resolution failure propagates and leaves the field alone; otherwise the field write's outcome |
| OperandsResolver.FindOptions | src/main/java/com/nilcaream/utilargs/OperandsResolver.java:84-93 | exactly the annotations of the target fields that pass the filter |
| OperandsResolver.FindValues | src/main/java/com/nilcaream/utilargs/OperandsResolver.java:69-75 | exactly the first characters of the non-empty primary names |
| OperandsResolver.FindAlternatives | src/main/java/com/nilcaream/utilargs/OperandsResolver.java:77-82 | exactly the non-empty alternative names |
| OperandsResolver.BooleanNamesAreDeclared | src/main/java/com/nilcaream/utilargs/OperandsResolver.java:31-37 | the boolean name sets are subsets of the full ones |
| OperandsResolver.Step | src/main/java/com/nilcaream/utilargs/OperandsResolver.java:43-63 | a boolean long or short name, or a group of boolean short names, moves the boundary to index+1; another declared name to index+2; anything else leaves it |
| OperandsResolver.FlagOrValueNotBoth | src/main/java/com/nilcaream/utilargs/OperandsResolver.java:44-63 | a token is never both a flag and an option taking a value |
| OperandsResolver.Resolve | src/main/java/com/nilcaream/utilargs/OperandsResolver.java:30-67 | the loop computes the boundary, and the result is the tokens from it joined by " ", or the copyOfRange exception |
| OperandsResolver.BoundaryMonotone | src/main/java/com/nilcaream/utilargs/OperandsResolver.java:42-64 | the boundary never decreases and never passes length+1 |
| OperandsResolver.UnrecognisedTail | src/main/java/com/nilcaream/utilargs/OperandsResolver.java:42-64 | unrecognised tokens leave the boundary unchanged |
| OperandsResolver.LastRecognisedDecides | src/main/java/com/nilcaream/utilargs/OperandsResolver.java:42-64 | the operands start right after the last recognised token, or after its value |
| OperandsResolver.NothingRecognised | src/main/java/com/nilcaream/utilargs/OperandsResolver.java:39-66 | with no recognised token the operands are the whole input joined |
| OperandsResolver.EmptyInput | src/main/java/com/nilcaream/utilargs/OperandsResolver.java:66 | empty input gives "" |
| OperandsResolver.FailsIffValueMissing | src/main/java/com/nilcaream/utilargs/OperandsResolver.java:42-66 | the call fails exactly when the last token is a declared option that takes a value |
| OperandsResolver.ResultBeforeLast | src/main/java/com/nilcaream/utilargs/OperandsResolver.java:42-64 | when the last token takes no value, the boundary stays within the token count |
| OperandsResolver.NoBooleansNoGroups | src/main/java/com/nilcaream/utilargs/OperandsResolver.java:40-62 | with no boolean short names, no group is recognised |
| OperandsResolver.GroupNeedsEveryChar | src/main/java/com/nilcaream/utilargs/OperandsResolver.java:58-62 | a group with any character that is not a boolean short name is not recognised |
| ArgumentProcessor2.AppendSpec | src/main/java/com/nilcaream/utilargs/ArgumentProcessor2.java:25-27 | the value is appended to the key's list, creating it when absent and keeping repeats; other keys are unchanged |
| ArgumentProcessor2.Process | src/main/java/com/nilcaream/utilargs/ArgumentProcessor2.java:7-23 | the loop with its break computes the token-by-token scan |
| ArgumentProcessor2.ProcessFromExtends | src/main/java/com/nilcaream/utilargs/ArgumentProcessor2.java:9-21 | the scan loses no key or value |
| ArgumentProcessor2.StepWithoutDelimiter | src/main/java/com/nilcaream/utilargs/ArgumentProcessor2.java:9-21 | a token other than `--` appends the next token under its key, when it has one, and the scan goes on with the following token |
| ArgumentProcessor2.DelimiterTakesRest | src/main/java/com/nilcaream/utilargs/ArgumentProcessor2.java:12-15 | `--` with a non-empty next token adds the rest, joined by " ", under `--` and stops |
| ArgumentProcessor2.LongOption | src/main/java/com/nilcaream/utilargs/ArgumentProcessor2.java:16-17 | `--name` records the next token, or "", under name |
| ArgumentProcessor2.ShortOption | src/main/java/com/nilcaream/utilargs/ArgumentProcessor2.java:18-19 | any other dash token longer than 1 is keyed by everything after the dash, with no group splitting |
| ArgumentProcessor2.ShortOptionTakesDelimiter | src/main/java/com/nilcaream/utilargs/ArgumentProcessor2.java:18-19 | a short option followed by `--` records `--` as its value |
| ArgumentProcessor2.DelimiterWithoutOperands | src/main/java/com/nilcaream/utilargs/ArgumentProcessor2.java:12-19 | `--` followed by "" or nothing records "" under `-` and scanning continues |
| ArgumentProcessor2.TrailingDelimiter | src/main/java/com/nilcaream/utilargs/ArgumentProcessor2.java:12-19 | a trailing `--` records "" under key `-` |
| ArgumentProcessor2.KeepsEveryValue | src/main/java/com/nilcaream/utilargs/ArgumentProcessor2.java:9-27 | without `--` tokens, each key's list is every value recorded for it, in token order, repeats included |
| ArgumentProcessor2.RepeatsKept | src/main/java/com/nilcaream/utilargs/ArgumentProcessor2.java:25-27 | `-a x -a x` gives a -> [x, x] |
| ParameterModel.Parameter.constructor | src/main/java/com/nilcaream/utilargs/model/Parameter.java:28-30 | a new parameter holds no option, argument or field |
| ParameterModel.Parameter.SetOption | src/main/java/com/nilcaream/utilargs/model/Parameter.java:32-38 | the getter returns the new option; the other fields are unchanged |
| ParameterModel.Parameter.SetArgument | src/main/java/com/nilcaream/utilargs/model/Parameter.java:40-46 | the getter returns the new argument; the other fields are unchanged |
| ParameterModel.Parameter.SetField | src/main/java/com/nilcaream/utilargs/model/Parameter.java:48-54 | the getter returns the new field; the other fields are unchanged |
| ParameterModel.Parameter.CompareTo | src/main/java/com/nilcaream/utilargs/model/Parameter.java:56-62 | 0 when the other is null or either option is missing; otherwise negative exactly when this name is smaller, and 0 exactly when the names are equal |
| ParameterModel.CompareToReflexive | src/main/java/com/nilcaream/utilargs/model/Parameter.java:56-62 | every parameter compares equal to itself |
| ParameterModel.CompareToAntisymmetric | src/main/java/com/nilcaream/utilargs/model/Parameter.java:61 | with both options present, swapping the operands negates the result |
| ParameterModel.CompareToTransitive | src/main/java/com/nilcaream/utilargs/model/Parameter.java:61 | among parameters with options the order is transitive |
| ParameterModel.MissingOptionEqualsEverything | src/main/java/com/nilcaream/utilargs/model/Parameter.java:58-61 | a parameter without an option equals two parameters that differ from each other, so the order is total only on parameters with options |
| LegacyProcessor.GetNextArgument | src/main/java/com/nilcaream/utilargs/ArgumentProcessor.java:141-147 | the following token, or "" when there is none |
| LegacyProcessor.ParameterKey | src/main/java/com/nilcaream/utilargs/ArgumentProcessor.java:129-139 | a declared option is found exactly for a two-character dash token whose character is declared, and it is that character |
| LegacyProcessor.AssignTrueSpec | src/main/java/com/nilcaream/utilargs/ArgumentProcessor.java:109-112 | the group loop sets "true" for every character of the group and leaves every other option as it was |
| LegacyProcessor.NothingUnlessAvailable | src/main/java/com/nilcaream/utilargs/ArgumentProcessor.java:85-127 | with no tokens, a first token not starting with `-`, or no declared options, nothing is assigned and the operands index is 0 |
| LegacyProcessor.BooleanOptionStep | src/main/java/com/nilcaream/utilargs/ArgumentProcessor.java:92-107 | a declared boolean option gets "true" and consumes only itself; then the delimiter check |
| LegacyProcessor.ValueRefusedStep | src/main/java/com/nilcaream/utilargs/ArgumentProcessor.java:95-107 | a non-boolean option followed by a two-character dash token that is not a number gets "" and leaves that token to be examined |
| LegacyProcessor.ValueTakenStep | src/main/java/com/nilcaream/utilargs/ArgumentProcessor.java:97-107 | otherwise a non-boolean option takes the next token (or "" when last) and consumes two tokens |
| LegacyProcessor.GroupStep | src/main/java/com/nilcaream/utilargs/ArgumentProcessor.java:108-119 | a group of declared boolean options sets each to "true" and consumes one token; then the delimiter check |
| LegacyProcessor.UnrecognisedStep | src/main/java/com/nilcaream/utilargs/ArgumentProcessor.java:86-121 | any other token is skipped and the operands index stays |
| LegacyProcessor.GroupNeedsDeclaredBooleans | src/main/java/com/nilcaream/utilargs/ArgumentProcessor.java:167-179 | a group with any character that is not a declared boolean option is not a group |
| LegacyProcessor.ScanFromConsistent | src/main/java/com/nilcaream/utilargs/ArgumentProcessor.java:84-123 | the scan assigns only declared options; a boolean one only gets "true", a non-boolean one "" or one of the tokens |
| LegacyProcessor.ProcessConsistent | src/main/java/com/nilcaream/utilargs/ArgumentProcessor.java:84-123 | the same for the whole processing |
| LegacyProcessor.ScanFromBounds | src/main/java/com/nilcaream/utilargs/ArgumentProcessor.java:84-123 | the operands index never moves back and stays at most one past the end |
| LegacyProcessor.ProcessBounds | src/main/java/com/nilcaream/utilargs/ArgumentProcessor.java:84-123 | the final operands index is at most the token count plus one |
| LegacyProcessor.DelimiterExample | src/main/java/com/nilcaream/utilargs/ArgumentProcessor.java:97-107 | `-a x -- -b` assigns only a, and the operands start after the delimiter |
| LegacyProcessor.LastOccurrenceWins | src/main/java/com/nilcaream/utilargs/ArgumentProcessor.java:97-99 | `-a x -a y` leaves a with y |
| LegacyProcessor.FirstAccepting | src/main/java/com/nilcaream/utilargs/ArgumentProcessor.java:187-196 | the binder found is the first that does not throw, all earlier ones throw, and none is found only when all throw |
| LegacyProcessor.FieldsByNameKeys | src/main/java/com/nilcaream/utilargs/ArgumentProcessor.java:63-82 | an option is declared exactly when some field carries its annotation |
| LegacyProcessor.ArgumentProcessor.constructor | src/main/java/com/nilcaream/utilargs/ArgumentProcessor.java:38-43 | no parameters, no binders, operands index 0 |
| LegacyProcessor.ArgumentProcessor.SetBinders | src/main/java/com/nilcaream/utilargs/ArgumentProcessor.java:248-254 | the getter returns the new binders; nothing else changes |
| LegacyProcessor.ArgumentProcessor.Initialize | src/main/java/com/nilcaream/utilargs/ArgumentProcessor.java:51-61 | the previous run is forgotten; one parameter per declared option holds its field; each argument and the operands index are those of the scan; the bindings list every assigned parameter once, in name order, with the binder that accepted it |
| LegacyProcessor.ArgumentProcessor.ResolveWrapperFields | src/main/java/com/nilcaream/utilargs/ArgumentProcessor.java:63-82 | a new parameter per annotated field, keyed by its option name; a later field with the same option replaces the earlier one; every parameter holds its option and field and no argument |
| LegacyProcessor.ArgumentProcessor.CreateArgument | src/main/java/com/nilcaream/utilargs/ArgumentProcessor.java:73-82 | null for a field without the annotation; otherwise a new parameter holding the annotation and the field and no argument |
| LegacyProcessor.ArgumentProcessor.Assign | src/main/java/com/nilcaream/utilargs/ArgumentProcessor.java:94-98 | setArgument on one option's parameter changes only that argument |
| LegacyProcessor.ArgumentProcessor.AssignGroup | src/main/java/com/nilcaream/utilargs/ArgumentProcessor.java:109-112 | the group loop sets "true" on each option of the group |
| LegacyProcessor.ArgumentProcessor.ScanOption | src/main/java/com/nilcaream/utilargs/ArgumentProcessor.java:92-107 | one iteration on a declared option sets its argument by its kind and the next token, moves the index past the option (and its value when taken), and sets the operands index, one further at a `--` that stops the loop |
| LegacyProcessor.ArgumentProcessor.OptionArgument | src/main/java/com/nilcaream/utilargs/ArgumentProcessor.java:93-100 | a boolean option gets "true" and consumes one token; a non-numeric two-character dash value is refused with ""; otherwise the value is taken and two tokens are consumed |
| LegacyProcessor.OptionStep | src/main/java/com/nilcaream/utilargs/ArgumentProcessor.java:86-107 | on a declared option the scan assigns the option's argument, moves to the index after it, and stops or continues by the delimiter check |
| LegacyProcessor.ArgumentProcessor.SetOperandsIndex | src/main/java/com/nilcaream/utilargs/ArgumentProcessor.java:102-107 | the operands index takes the given value; the options, their arguments and fields are unchanged |
| LegacyProcessor.ArgumentProcessor.ScanOther | src/main/java/com/nilcaream/utilargs/ArgumentProcessor.java:108-120 | one iteration on any other token is one step of the scan |
| LegacyProcessor.ArgumentProcessor.ScanGroup | src/main/java/com/nilcaream/utilargs/ArgumentProcessor.java:108-119 | one iteration on a group is one step of the scan |
| LegacyProcessor.ArgumentProcessor.ProcessArguments | src/main/java/com/nilcaream/utilargs/ArgumentProcessor.java:84-123 | the arguments and the operands index become those of the scan; options and fields are unchanged |
| LegacyProcessor.ArgumentProcessor.AreArgumentsAvailableNow | src/main/java/com/nilcaream/utilargs/ArgumentProcessor.java:125-127 | true exactly when there are tokens, the first starts with `-`, and some option is declared |
| LegacyProcessor.ArgumentProcessor.GetParameterByKey | src/main/java/com/nilcaream/utilargs/ArgumentProcessor.java:129-135 | a parameter exactly for a two-character dash token whose character is declared, and then that option's parameter |
| LegacyProcessor.ArgumentProcessor.IsBooleanGroupNow | src/main/java/com/nilcaream/utilargs/ArgumentProcessor.java:167-179 | true exactly when the token is a dash and two or more characters, each a declared boolean option |
| LegacyProcessor.ArgumentProcessor.GetOperands | src/main/java/com/nilcaream/utilargs/ArgumentProcessor.java:198-206 | the tokens from the operands index, joined by " " and trimmed, or "" when the index is past the end |
| LegacyProcessor.ArgumentProcessor.BindValue | src/main/java/com/nilcaream/utilargs/ArgumentProcessor.java:187-196 | the binders are tried in order up to the first one that does not throw |
| LegacyProcessor.ArgumentProcessor.BindValues | src/main/java/com/nilcaream/utilargs/ArgumentProcessor.java:181-185 | every assigned parameter is bound once, in name order |
| LegacyProcessor.ArgumentProcessor.BindAll | src/main/java/com/nilcaream/utilargs/ArgumentProcessor.java:182-184 | one binding per parameter, in order, each naming the first binder that accepts that parameter's field and argument |
| LegacyProcessor.ArgumentProcessor.GetParameters | src/main/java/com/nilcaream/utilargs/ArgumentProcessor.java:225-234 | exactly the parameters with an argument, strictly ordered by compareTo |
| LegacyProcessor.ArgumentProcessor.GetDeclaredParameters | src/main/java/com/nilcaream/utilargs/ArgumentProcessor.java:213-218 | exactly the declared parameters, strictly ordered by compareTo |
| LegacyProcessor.ArgumentProcessor.SortedByName | src/main/java/com/nilcaream/utilargs/ArgumentProcessor.java:216 | the parameters of the given names, each once, strictly ordered by compareTo |
| LegacyProcessor.SortedNames | src/main/java/com/nilcaream/utilargs/ArgumentProcessor.java:216 | every given name exactly once, in strictly ascending order |

## Left out

- Reflection is not modelled. Field discovery is a sequence of declared
  fields (`DeclaredMember`, `DeclaredField`). The field write is the
  `FieldSlot` class. `Class.forName`, `getMethod("valueOf", …)`,
  `Method.invoke` and `Constructor.newInstance` are the functions of
  `BaseMapper.Reflection`. What those calls actually compute is not
  modelled.
- `Double.parseDouble` in `ArgumentProcessor.isNumber` is the function
  parameter `isNumber`. The numeric, BigDecimal and floating-point
  conversions reached through `valueOf` and the constructors are not
  modelled.
- The regular expression `[c1c2…]+` in `OperandsResolver.resolve` is "every
  character is a boolean short name". Regex metacharacters among the names
  are not modelled.
- `UtilArgs.java` (wiring, fail-fast handling) and the binder wrappers
  `core/StaticValueOfBinder.java` and `core/StringConstructorBinder.java` are
  not part of this model; they are reflection plus the wrapper naming
  already modelled in `BaseMapper`.
- LegacyProcessor.ArgumentProcessor.BindValue: a legacy binder is a
  function from field and argument to "returned"/"threw". Its effect on the
  wrapper object is not modelled; `bindValues` yields a log that says which
  binder accepted each parameter.
- `Array.newInstance`/`Array.set` type checks: the array is a fresh
  `array<Value>` of the values' length, and a primitive component type that
  refuses a value is not modelled.
- HashMap iteration order is not modelled. The result maps are Dafny maps,
  and `getParameters` is modelled through its sorted result only.
- Collections.sort is modelled by repeatedly taking the least remaining
  option name. Sort stability is not modelled: no two parameters share a
  name.
- Characters are Unicode scalar values, not 16-bit UTF-16 units. `trim`
  removes characters up to U+0020. `equalsIgnoreCase` and `toUpperCase`
  handle ASCII letters only.
- ParameterModel.Parameter.CompareTo: the contract states the sign of the
  result (its use by the sort), not the exact character difference. The
  range of that difference depends on 16-bit Java chars.
- Null token arrays and null wrapper objects are not modelled. A fresh
  `ArgumentProcessor` holds an empty token sequence where Java holds null.
- The getters of the wrapper and of the raw token array are trivial and
  have no contract. `ArgumentProcessor.getArguments` and `getOperandsIndex`
  are modelled as plain reads.
