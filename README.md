# i18nJsonToTs, modelled in Dafny

i18nJsonToTs turns a nested i18n JSON object into TypeScript. Every
string that holds placeholders such as `{count: number}` becomes a typed
arrow function. Every plural-form object (numeric keys plus a catch-all
`n`) becomes an arrow function that tests `count`.

This project models the core of that program and proves properties of the
model:

- **The placeholder scanner.** A hand-written scanner stands for the
  regular expression `(?<!\\){\s*([^:\s]+)\s*:\s*([^}\s]+)\s*(?<!\\)}`.
  The `getAllMatches` generator drives a cloned, global regular
  expression object, modelled as a class with a `lastIndex` field.
- **The JSON-to-intermediate converter**, covering:
  - string conversion;
  - the first-wins argument set (a class over an insertion-ordered map);
  - the string-parts builder (a class whose `add` splits the remainder);
  - plain objects, arrays and plural-form objects.
- **The intermediate-to-TypeScript emitter.** It covers literal, array and
  object expressions, placeholder arrow functions, template literals with
  head, middle and tail spans, typed parameters, and the plural
  `if (count === k) return …` chain. The TypeScript node factory is
  replaced by an abstract syntax tree, in module `TsAst`.
- **Two older flat converters**:
  - the one whose template entries carry full arguments and whose
    `getTypeFrom` looks up enum member names;
  - the earliest one, which wraps every value verbatim.

JavaScript behaviour is written out where the program relies on it:

- **`split`.** `s.split(sep)` cuts at every occurrence, so only elements 0
  and 1 are read. `undefined` is an `Option`.
- **Throwing.** Reading a property of `undefined` throws a `TypeError`.
  Conversions that can reach it return a `Result` that names the property
  read: `split`, `name` or `0`.
- **`parseInt`.** It skips leading whitespace and one sign, and reads a run
  of digits. `NaN` is `None`.
- **Maps.** `Map.set` replaces a value in place or appends a new key.
  `Object.keys` order is the order of an entry sequence.
- **`\s`.** It is the exact set of code points the JavaScript class
  matches.

Loops in the source become methods with loop invariants, each proved equal
to a pure function. The properties are stated about those functions. The
repeated-placeholder quirk is modelled as written. `split` cuts at every
occurrence of the match text, whether or not that occurrence is itself a
match. So the remainder becomes what lies before the next occurrence of the
match text, or `undefined` when there is none. The getter then pushes that
`undefined`, and a further `add` throws `split`. This is shown on concrete
strings, with their matches computed by the expression. The text round trip is proved
only where each match text occurs once in what is left of the string.

Three behaviours of the code are easy to misread; the model follows the
code:

- The parts are not always alternating literal/reference segments. When a
  match text occurs again later, matched or escaped, the builder keeps only
  what lies between its first two occurrences.
- The builder may push `undefined`, which then makes the emitter throw.
- The older converter's `getTypeFrom` recognises `"Number"` and
  `"ToString"`, not the lower-case tokens.

## Model

| member | source | states |
|---|---|---|
| Placeholders.RunEndIsMaximalRun | src/JsonConversion.ts:16 | The scanner's runs are as greedy as the expression's `\s*`, `[^:\s]+` and `[^}\s]+`: every character of the run is in the class, and the next one is not. |
| Placeholders.MatchAt | src/JsonConversion.ts:16 | A match found at `i` starts at `i` and ends inside the string. Its text is exactly the slice it covers, and it is at least five characters long. |
| Placeholders.MatchAtSound | src/JsonConversion.ts:16 | Every match the scanner reports has no backslash before its `{`. Its text is `{`, whitespace, the name group (no `:` or whitespace), whitespace, `:`, whitespace, the type group (no `}` or whitespace), whitespace and a `}` that is not preceded by a backslash. |
| Placeholders.MatchAtComplete | src/JsonConversion.ts:16 | Conversely, every occurrence of that shape at an unescaped position is the match reported there, with the same text, name and type groups. |
| Placeholders.NoBraceNoMatch | src/JsonConversion.ts:16 | Without a `{` from some position on, no match starts there. |
| Placeholders.EscapedOpeningBrace | src/JsonConversion.ts:16 | `\{a:string}` yields no match. |
| Placeholders.EscapedClosingBraceLayout | src/JsonConversion.ts:16 | In `{a:string\}`, the type group runs over the backslash up to the brace. |
| Placeholders.EscapedClosingBrace | src/JsonConversion.ts:16 | `{a:string\}` yields no match. |
| Placeholders.FirstMatchFrom | src/RegexUtils.ts:5 | The match a global `exec` finds from `lastIndex` starts at or after it and ends inside the string. |
| Placeholders.FirstMatchFromIsLeftmost | src/RegexUtils.ts:5 | That match is a real match, and no match starts between `lastIndex` and it. When `exec` fails, no match starts at or after `lastIndex`. |
| Placeholders.LeftmostIsFirst | src/RegexUtils.ts:5 | A match with no match before it, from `lastIndex` on, is exactly what `exec` returns. |
| Placeholders.MatchesFromIsMatchSequence | src/RegexUtils.ts:3-9 | The enumerated matches are leftmost-first and each resumes at the end of the previous one. An empty enumeration means no match remains. |
| Placeholders.AllMatches | src/RegexUtils.ts:1-10 | Every match's text occurs in the string at the match's index, and a string holds at most one match per five characters (the shortest placeholder, such as `{a:b}`). |
| Placeholders.MatchSequenceUnique | src/RegexUtils.ts:3-9 | Only one sequence fits that description, so the matches of a string are fully determined by it: every call on the same string yields the same sequence. |
| Placeholders.MatchSequenceOrdered | src/RegexUtils.ts:3-9 | Consecutive matches do not overlap, and they appear left to right. |
| Placeholders.MatchSequenceNonEmpty | src/RegexUtils.ts:3-9 | Every enumerated match is at least five characters long, so the `do/while` loop always advances. |
| Placeholders.NoMatchesIff | src/RegexUtils.ts:4-9 | A string yields no match exactly when no position of it starts one. |
| RegexUtils.PlaceholderRegex.constructor | src/RegexUtils.ts:2 | A freshly built expression starts looking at index 0. |
| RegexUtils.PlaceholderRegex.Exec | src/RegexUtils.ts:5 | `exec` returns the leftmost match from `lastIndex`. It moves `lastIndex` to the match's end, or resets it to 0 on failure. |
| RegexUtils.GetAllMatches | src/RegexUtils.ts:1-10 | The generator yields exactly the leftmost-first, non-overlapping enumeration of the string. The argument's `lastIndex` is neither read nor changed. |
| JsStrings.IndexOf | src/JsonToIntermediate/JsonConversion.ts:174 | The occurrence `split` cuts at is the first one at or after the search position. |
| JsStrings.SplitOnceRebuilds | src/JsonToIntermediate/JsonConversion.ts:174-175 | When the separator occurs once, elements 0 and 1 of `split` are defined and rebuild the string around the separator. |
| JsStrings.SplitFirstTwo | src/JsonToIntermediate/JsonConversion.ts:174 | Elements 0 and 1 of `split`: element 0 is `undefined` only for `"".split("")` and is always a prefix of the string. For a non-empty separator, element 1 is defined exactly when the separator occurs, and element 0, the separator and element 1 then lie in order at the start of the string. |
| JsStrings.SplitPiecesLackSeparator | src/JsonToIntermediate/JsonConversion.ts:174 | For a non-empty separator, neither element 0 nor element 1 of `split` contains the separator. |
| JsStrings.ParseIntOfDigits | src/IntermediateToTypeScript/ExpressionCreation.ts:103 | `parseInt(key, 10)` on an all-digit key is the key's decimal value. |
| JsStrings.ParseInt | src/IntermediateToTypeScript/ExpressionCreation.ts:103 | `parseInt(key, 10)`: an all-digit key reads as its decimal value and `-` followed by digits as its negation. A key starting with anything but whitespace, a sign or a digit is `NaN`. |
| Intermediate.GetTypeFrom | src/Intermediate/IntermediateStructure.ts:62-68 | `"string"`, `"number"` and `"toString"` give `String`, `Number` and `ToString`. Every other token, including `"Number"`, gives `String`. |
| Intermediate.GetTypeFromValue | src/Intermediate/IntermediateStructure.ts:62-68 | Looking up any member's own value gives that member back. |
| Intermediate.GuardsPartition | src/Intermediate/IntermediateStructure.ts:70-105 | Each `is…ValueDescription` guard holds exactly for its own tag. `isPrimitiveStringValueDescription` holds exactly for a primitive string, and it implies `isPrimitiveValueDescription`. |
| OrderedMaps.Put | src/JsonToIntermediate/JsonConversion.ts:67 | `map.set`: the key maps to the new value and every other key is unchanged. An existing key keeps its position, a new key is appended, and distinct keys stay distinct. |
| OrderedMaps.AddIfAbsentKeepsFirst | src/JsonToIntermediate/JsonConversion.ts:156-160 | Adding a name already present changes nothing. Otherwise the name maps to the new argument and every other name is unchanged. |
| OrderedMaps.AddAllIfAbsentFirstWins | src/JsonToIntermediate/JsonConversion.ts:155-164 | Adding entries one by one with first-wins semantics yields: the old map in front; each key once; exactly the old and added keys; each new key with the value of its first entry; new keys in order of first appearance. |
| OrderedMaps.WithoutKeyKeeps | src/JsonToIntermediate/JsonConversion.ts:28 | The filter `key !== "n"` keeps every entry with another key. |
| OrderedMaps.WithoutKeyDistinct | src/JsonToIntermediate/JsonConversion.ts:28 | Over distinct keys, the filter keeps keys distinct and drops exactly one entry when `n` is present. |
| ArgSets.ArgSet.constructor | src/JsonToIntermediate/JsonConversion.ts:151-152 | `new Map(initialArgs.map(...))` sets each initial argument under its name, in order. The set holds distinct names, each under its own name. |
| ArgSets.ArgSet.Add | src/JsonToIntermediate/JsonConversion.ts:155-161 | `add` leaves the set unchanged when the name is present and appends the argument otherwise. It keeps the invariant. |
| ArgSets.ArgSet.Args | src/JsonToIntermediate/JsonConversion.ts:162-164 | `args` lists the stored arguments in insertion order, with no name twice. |
| ArgSets.SingleArgSet | src/JsonToIntermediate/JsonConversion.ts:24-25 | A set created from `[count]` holds just `count`. |
| ArgSets.AddedArgsFirstWins | src/JsonToIntermediate/JsonConversion.ts:151-166 | After adding arguments one at a time, `args` is: the initial arguments first; then each name not already present, once, with its first argument's type, in order of first appearance. Every added name is present. |
| StringParts.AddPart | src/JsonToIntermediate/JsonConversion.ts:173-182 | One `add` throws exactly when the remainder is `undefined`. Otherwise it pushes parts ending in the reference `{name}`. |
| StringParts.StringPartsBuilder.constructor | src/JsonToIntermediate/JsonConversion.ts:168-170 | The builder starts with no parts and the whole value unprocessed. |
| StringParts.StringPartsBuilder.Add | src/JsonToIntermediate/JsonConversion.ts:173-182 | `add` pushes what one step of the parts specification pushes and keeps element 1 of the split as the remainder. On `undefined`, it throws and changes nothing. |
| StringParts.StringPartsBuilder.GetStringPart | src/JsonToIntermediate/JsonConversion.ts:183-189 | The getter itself pushes the remainder unless it is `""`, and returns the parts. |
| StringParts.SegmentArgNames | src/JsonToIntermediate/JsonConversion.ts:127-135 | The parts hold exactly one reference per match, in match order, so a name matched N times is referenced N times. |
| StringParts.StringPartsOf | src/JsonToIntermediate/JsonConversion.ts:127-141 | The parts the builder holds after one `add` per match and the getter. It throws only where `split` meets `undefined`. Otherwise it references the matched names once each, in match order, and holds no empty literal. |
| StringParts.SegmentNoEmptyText | src/JsonToIntermediate/JsonConversion.ts:177-186 | No literal part is `""`. |
| StringParts.SegmentNoAdjacentText | src/JsonToIntermediate/JsonConversion.ts:173-189 | No two literal parts are next to each other. |
| StringParts.SegmentUndefinedOnlyLast | src/JsonToIntermediate/JsonConversion.ts:174-186 | `undefined` can only be the last part. |
| StringParts.SegmentRoundTrip | src/JsonToIntermediate/JsonConversion.ts:168-191 | When each match text occurs once in what is left of the string, the parts hold no `undefined`. Putting each match's text back for its reference then spells the original string. |
| StringParts.RepeatedMatchTextLosesRest | src/JsonToIntermediate/JsonConversion.ts:174-186 | Both occurrences in `{a:b}x{a:b}y` are matches, and the converter's parts for them are `{a}`, `x`, `{a}`, `undefined`: the trailing `y` is lost. |
| StringParts.EscapedRepeatLosesRest | src/JsonToIntermediate/JsonConversion.ts:174-186 | In `{a:b}x\{a:b}y` only the first `{a:b}` is a match, yet `split` also cuts at the escaped one: the parts are `{a}`, `x\`, the `y` is lost, and no `undefined` is pushed. |
| StringParts.ThirdOccurrenceThrows | src/JsonToIntermediate/JsonConversion.ts:174 | All three occurrences in `{a:b}{a:b}{a:b}` are matches, and the converter throws `split`: the third `add` splits `undefined`. |
| JsonConversion.ConvertString | src/JsonToIntermediate/JsonConversion.ts:112-118 | A converted string is either the primitive holding that very string or a placeholder function. |
| JsonConversion.PlaceholderFunctionOf | src/JsonToIntermediate/JsonConversion.ts:120-142 | What the placeholder loop returns: a placeholder function whose parts reference the matched names in match order, or the `split` error. |
| JsonConversion.ConvertStringToPlaceholderFunction | src/JsonToIntermediate/JsonConversion.ts:120-142 | The loop driving a fresh argument set and parts builder returns the arguments added first-wins and the builder's parts, or its error. |
| JsonConversion.IsPluralFormObject | src/JsonToIntermediate/JsonConversion.ts:144-149 | A plural-form object is not empty, and every form other than `n` is a string under an all-digit key. |
| JsonConversion.ConvertValue | src/JsonToIntermediate/JsonConversion.ts:87-103 | `convertValue` throws only where `split` meets `undefined`. When it succeeds, the result is an `Array` exactly for an array, and an `Object` or plural function exactly for an object. |
| JsonConversion.ConvertArray | src/JsonToIntermediate/JsonConversion.ts:77-84 | An array becomes an `Array` node with one description per element. It throws only the `split` error. |
| JsonConversion.ConvertObject | src/JsonToIntermediate/JsonConversion.ts:19-21 | An object becomes a plural function exactly when it is a plural-form object, and a plain `Object` otherwise. It throws only the `split` error. |
| JsonConversion.SimpleObjectOf | src/JsonToIntermediate/JsonConversion.ts:59-74 | What the plain-object loop returns: an `Object`, or the `split` error of the first value that throws. |
| JsonConversion.GetPluralFunctionValues | src/JsonToIntermediate/JsonConversion.ts:51-57 | The catch-all form is the string itself exactly when it holds no placeholder match. Otherwise it is parts referencing the matched names in match order. It throws only the `split` error. |
| JsonConversion.PluralFunctionOf | src/JsonToIntermediate/JsonConversion.ts:23-49 | What the plural loop returns: a plural function, or the `split` error. |
| JsonConversion.ConvertSimpleObject | src/JsonToIntermediate/JsonConversion.ts:59-74 | The loop sets each member's converted value under its key, in key order. The first value that throws ends it. |
| JsonConversion.AddArgs | src/JsonToIntermediate/JsonConversion.ts:37-39 | Adding a form's arguments one by one is first-wins insertion of all of them. |
| JsonConversion.ConvertPluralForm | src/JsonToIntermediate/JsonConversion.ts:30-41 | One pass stores a form without placeholders as its literal, leaving the arguments alone. It stores a form with placeholders as its parts, after adding its arguments. |
| JsonConversion.ConvertPluralFormObject | src/JsonToIntermediate/JsonConversion.ts:23-49 | The method: starts the argument set with `count`; stores the converted catch-all under `n`; runs the passes over the other keys in key order; returns the set's arguments and the values. |
| ConversionProperties.ConvertStringCases | src/JsonToIntermediate/JsonConversion.ts:112-118 | A string stays a primitive holding itself exactly when no position of it starts a placeholder. Otherwise it becomes a placeholder function, unless the builder throws. |
| ConversionProperties.PlaceholderFunctionArgs | src/JsonToIntermediate/JsonConversion.ts:120-142 | A placeholder function's arguments hold each matched name once, in order of first occurrence, with the type of its first occurrence. |
| ConversionProperties.PlaceholderFunctionParts | src/JsonToIntermediate/JsonConversion.ts:120-142 | A placeholder function's parts: one reference per match, in match order; no empty literal; no two literals in a row; `undefined` at most at the end. |
| ConversionProperties.PlaceholderRoundTrip | src/JsonToIntermediate/JsonConversion.ts:112-142 | When each match text occurs once in what is left, conversion succeeds and yields a placeholder function. Its parts, with match texts put back, spell the original string. |
| ConversionProperties.ConvertItemsSpec | src/JsonToIntermediate/JsonConversion.ts:78 | `values.map(convertValue)` succeeds exactly when every element converts. Element `i` of the result is then the conversion of element `i`. |
| ConversionProperties.ConvertArraySpec | src/JsonToIntermediate/JsonConversion.ts:77-84 | An array becomes an `Array` node of the same length whose element `i` is the conversion of element `i`. It throws exactly when some element does. |
| ConversionProperties.ConvertValueDispatch | src/JsonToIntermediate/JsonConversion.ts:87-103 | Numbers, booleans and strings without placeholders become primitives holding them. Strings with placeholders become placeholder functions and arrays become `Array`. Objects become plural functions exactly when they are plural-form objects, and `Object` otherwise. |
| ConversionProperties.SimpleObjectSpec | src/JsonToIntermediate/JsonConversion.ts:59-74 | A non-plural object with distinct keys becomes an `Object` with one property per key, in key order, each the conversion of its value. It throws exactly when a value does. |
| ConversionProperties.EmptyObjectIsPlain | src/JsonToIntermediate/JsonConversion.ts:144-149 | An empty object lacks `n`, so it is a plain, empty `Object`. |
| ConversionProperties.PluralFromArgs | src/JsonToIntermediate/JsonConversion.ts:29-42 | The plural loop adds the numbered forms' arguments to the set first-wins, form after form. |
| ConversionProperties.PluralFunctionArgs | src/JsonToIntermediate/JsonConversion.ts:23-57 | A plural function's arguments are `count: Number` first, even when a form names `count` with another type. Then come the numbered forms' arguments, first-wins in key order. Arguments of the catch-all form are never added. |
| ConversionProperties.PluralStepValues | src/JsonToIntermediate/JsonConversion.ts:30-41 | A pass stores under its key the form converted as the catch-all is converted: a literal, or its parts. |
| ConversionProperties.PluralFunctionValues | src/JsonToIntermediate/JsonConversion.ts:23-57 | Over distinct keys, the values hold: `n` first, with the catch-all form; then each other key in key order; one entry per key; a form with no placeholder as its literal, otherwise as its parts. |
| ConversionProperties.PluralStartValues | src/JsonToIntermediate/JsonConversion.ts:26-42 | Starting from the catch-all form alone, the loop appends one entry per numbered key, in key order. |
| ParameterCreation.CreateParameters | src/IntermediateToTypeScript/ParameterCreation.ts:4-10 | One parameter per argument, in order, named by the argument. |
| ParameterCreation.MapType | src/IntermediateToTypeScript/ParameterCreation.ts:12-22 | `mapType` gives `number` exactly for `Number`, and `string` for every other type. |
| ParameterCreation.ParameterTypes | src/IntermediateToTypeScript/ParameterCreation.ts:12-22 | A parameter is typed `number` exactly when its argument is `Number`, and `string` otherwise (including `ToString`). |
| TemplateCreation.CreateTemplateOk | src/IntermediateToTypeScript/TemplateExpressionCreation.ts:12-41 | `createTemplate` succeeds exactly when no part is `undefined`, and otherwise throws reading `name`. Its head is the first part when that is text, and `""` otherwise. |
| TemplateCreation.CreateTemplate | src/IntermediateToTypeScript/TemplateExpressionCreation.ts:12-41 | `createTemplate` builds a template expression whose span identifiers are the referenced names, in order. Its only error is the read of `name`. |
| TemplateCreation.SpansFromThrows | src/IntermediateToTypeScript/TemplateExpressionCreation.ts:16-38 | The spans throw exactly when some part is `undefined`. |
| TemplateCreation.SpansFromError | src/IntermediateToTypeScript/TemplateExpressionCreation.ts:36 | The only error is the read of `name`. |
| TemplateCreation.SpansFromAreReferences | src/IntermediateToTypeScript/TemplateExpressionCreation.ts:16-38 | There is one span per reference, in order. It names the reference and carries the next part's text when that is text, `""` otherwise. Its literal is a tail exactly when the reference is at one of the last two positions. |
| TemplateCreation.SpanIdentifiers | src/IntermediateToTypeScript/TemplateExpressionCreation.ts:16-38 | The span identifiers are the referenced names, in order. |
| TemplateCreation.OnlyLastSpanIsTail | src/IntermediateToTypeScript/TemplateExpressionCreation.ts:29-34 | When text and references alternate, exactly the last span is a tail. |
| TemplateCreation.TrailingReferencesBothTail | src/IntermediateToTypeScript/TemplateExpressionCreation.ts:29-34 | When the last two parts are both references, both of their spans are tails. |
| TemplateCreation.TemplateRendersParts | src/IntermediateToTypeScript/TemplateExpressionCreation.ts:12-41 | With no `undefined` part and no two adjacent literals, the template built is defined. The head followed by each span's substitution and literal spells the same text as the parts. |
| ExpressionCreation.CreateValue | src/IntermediateToTypeScript/ExpressionCreation.ts:58-60 | A primitive becomes a literal denoting that very value. |
| ExpressionCreation.CreateExpression | src/IntermediateToTypeScript/ExpressionCreation.ts:34-56 | A successful conversion never yields the fallback, the numeric literal of `SyntaxKind.UndefinedKeyword`. |
| ExpressionCreation.CreateArray | src/IntermediateToTypeScript/ExpressionCreation.ts:62-68 | An array becomes an array literal. |
| ExpressionCreation.CreateProperty | src/IntermediateToTypeScript/ExpressionCreation.ts:74 | A property assignment is named by its key. |
| ExpressionCreation.CreateObject | src/IntermediateToTypeScript/ExpressionCreation.ts:70-78 | An object becomes an object literal. |
| ExpressionCreation.CreatePlaceholderFunction | src/IntermediateToTypeScript/ExpressionCreation.ts:80-86 | A placeholder function becomes an arrow whose body is an expression. |
| ExpressionCreation.CreatePluralFunction | src/IntermediateToTypeScript/ExpressionCreation.ts:88-121 | A plural function becomes an arrow whose body is a block. |
| ExpressionCreation.PluralBranches | src/IntermediateToTypeScript/ExpressionCreation.ts:95-112 | One `if` per key other than `n`, in key order, each testing `count === parseInt(key)`. Its only error is the read of `name`. |
| ExpressionCreation.NthReturn | src/IntermediateToTypeScript/ExpressionCreation.ts:114-116 | The catch-all `return` is built only when `n` is present. Its error is the read of `0` exactly when `n` is missing. |
| ExpressionCreation.CreateElementsIsMapAll | src/IntermediateToTypeScript/ExpressionCreation.ts:63-65 | The element conversion is the throwing `map` of `createExpression`. |
| ExpressionCreation.CreatePropertiesIsMapAll | src/IntermediateToTypeScript/ExpressionCreation.ts:73-75 | The property loop's result is the throwing `map` of one assignment per entry. |
| ExpressionCreation.EmitObject | src/IntermediateToTypeScript/ExpressionCreation.ts:70-78 | The loop pushing one assignment per entry returns exactly the object conversion, including its first error. |
| ExpressionCreation.EmitPluralFunction | src/IntermediateToTypeScript/ExpressionCreation.ts:88-121 | Building the branches and then pushing the catch-all `return` yields exactly the plural-function conversion. |
| EmissionProperties.CreateExpressionByTag | src/IntermediateToTypeScript/ExpressionCreation.ts:34-56 | Each tag gives a node of its own kind: a primitive gives the literal of its value; array ⇔ array literal; object ⇔ object literal; placeholder function ⇔ arrow with expression body; plural function ⇔ arrow with block. |
| EmissionProperties.CreateArraySpec | src/IntermediateToTypeScript/ExpressionCreation.ts:62-68 | The array literal has one element per item, element `i` being the expression of item `i`. It fails exactly when some item does. |
| EmissionProperties.CreateObjectSpec | src/IntermediateToTypeScript/ExpressionCreation.ts:70-78 | The object literal has one assignment per entry, in entry order, named by its key and initialised with the expression of its value. It fails exactly when some value does. |
| EmissionProperties.PlaceholderFunctionSpec | src/IntermediateToTypeScript/ExpressionCreation.ts:80-86 | The arrow has one parameter per argument, by name and in order. It returns the template of the parts, whose head is the leading text and whose spans name the referenced arguments in order. The parameters are `createParameters(args)` and the body is `createTemplate(parts)`, so the parameter-type and template lemmas apply to the arrow directly. It is built exactly when no part is `undefined`. |
| EmissionProperties.BranchValueOk | src/IntermediateToTypeScript/ExpressionCreation.ts:107 | A form can be returned unless it is parts holding `undefined`. |
| EmissionProperties.PluralBranchesOk | src/IntermediateToTypeScript/ExpressionCreation.ts:95-112 | The branches are built exactly when every form other than `n` can be returned. |
| EmissionProperties.PluralFunctionOk | src/IntermediateToTypeScript/ExpressionCreation.ts:88-121 | A plural function is emitted exactly when `n` is present and every form, `n` included, can be returned. |
| EmissionProperties.PluralMissingCatchAll | src/IntermediateToTypeScript/ExpressionCreation.ts:114-116 | Without `n`, and with every numbered form returnable, emission throws reading `0` of `undefined`. (A numbered form holding `undefined` throws reading `name` first, in the branches built before line 114.) |
| EmissionProperties.PluralStatements | src/IntermediateToTypeScript/ExpressionCreation.ts:93-118 | The block holds first, for each key other than `n` in key order, `if (count === parseInt(key)) { return form; }`, then one `return` of the `n` form. A form is returned as a string literal or its template. There are exactly one statement more than non-`n` keys. |
| EmissionProperties.PluralStatementCount | src/IntermediateToTypeScript/ExpressionCreation.ts:93-118 | Over distinct keys, the block has one statement per key. |
| EmissionProperties.CountIsDigits | src/IntermediateToTypeScript/ExpressionCreation.ts:100-104 | The condition for an all-digit key compares `count` with the key's decimal value. |
| EmissionProperties.CreateExpressionOk | src/IntermediateToTypeScript/ExpressionCreation.ts:34-121 | Emission of any tree succeeds exactly when no template on the way holds `undefined` and every plural function has its catch-all form. |
| LegacyStructure.GetTypeFrom | src/IntermediateStructure.ts:56-58 | `"Number"` gives `Number`, `"ToString"` gives `ToString`, and every other token gives `String`. |
| LegacyStructure.GetTypeFromMemberName | src/IntermediateStructure.ts:56-58 | Looking up any member's own name gives the member back. |
| LegacyStructure.ValueTokensAreStrings | src/IntermediateStructure.ts:56-58 | The value tokens `"number"` and `"string"` are not member names, so `{n: number}` is typed as a string. |
| LegacyConversion.MatchEntries | src/JsonConversion.ts:86-92 | One `[name, arg]` pair per match, in match order, typed from its token. |
| LegacyConversion.MatchArgs | src/JsonConversion.ts:86-92 | The arguments the matches declare, one per occurrence, in order, each typed from its own token. |
| LegacyConversion.TemplateStep | src/JsonConversion.ts:95-101 | One iteration throws exactly when the processed value is `undefined`. |
| LegacyConversion.SplitAndPush | src/JsonConversion.ts:95-102 | One callback of the loop: the processed value becomes element 1 of its `split` at the match text, and the template grows by element 0 (unless it is `""`) and then the argument, exactly as the specified template step. |
| LegacyConversion.ConvertStringValueToPlaceholderFunction | src/JsonConversion.ts:77-112 | The loop filling `argMap` first-wins and pushing onto the template returns exactly the specified arguments and template, or the `split` error. |
| LegacyConversion.PlaceholderFunctionOf | src/JsonConversion.ts:77-112 | What the legacy loop returns: a placeholder-function value, or the `split` error. |
| LegacyConversion.ConvertStringProperty | src/JsonConversion.ts:50-69 | A string property keeps its key and is never `NoneString`. It is `String` exactly when the value has no match. It throws only the `split` error. |
| LegacyConversion.ConvertNoneStringProperty | src/JsonConversion.ts:36-48 | A non-string property keeps its key, is tagged `NoneString` and carries its value unchanged, nested objects and arrays included. |
| LegacyConversion.ConvertMember | src/JsonConversion.ts:26-29 | A member keeps its key. It is `NoneString` exactly when its value is not a string, and it is then always converted, wrapping the value verbatim. It throws only the `split` error. |
| LegacyConversion.ConvertObject | src/JsonConversion.ts:23-34 | One description per member, in member order, under the member's key. It throws only the `split` error. |
| LegacyProperties.StepIsAddPart | src/JsonConversion.ts:95-101 | One iteration pushes what one `add` of the later parts builder pushes, with the argument reduced to its name, and keeps the same remainder. |
| LegacyProperties.TemplateIsParts | src/JsonConversion.ts:84-106 | The template is the later converter's parts sequence, with each full argument reduced to its name, and it fails exactly when that does. |
| LegacyProperties.TemplateArgsAreOccurrences | src/JsonConversion.ts:85-102 | The template's argument entries are, in order, each match's own full argument with its own type, not the first-wins one. |
| LegacyProperties.StepArgs | src/JsonConversion.ts:101 | One iteration pushes exactly one argument, the match's own. |
| LegacyProperties.TemplateNoEmptyText | src/JsonConversion.ts:97-106 | The template holds no empty literal. |
| LegacyProperties.TemplateRoundTrip | src/JsonConversion.ts:77-112 | When each match text occurs once in what is left, the template holds no `undefined`. With match texts put back, it spells the original string. |
| LegacyProperties.ArgsFirstWins | src/JsonConversion.ts:91-93 | `args` holds each matched name once, in order of first occurrence, with the argument of its first occurrence. |
| LegacyProperties.StringPropertyCases | src/JsonConversion.ts:50-69 | A string property keeps its key. It is `String`, holding the value itself, exactly when there is no match, and `PlaceholderFunction` otherwise. |
| LegacyProperties.ConvertObjectSpec | src/JsonConversion.ts:23-48 | One description per member, in order, under its key. It is `NoneString` exactly for non-string values, which are wrapped verbatim. It fails exactly when a member does. |
| EarliestConversion.ConvertObject | src/JsonConvertion.ts:8-23 | One description per key, in key order, holding the key and its value unchanged. Strings are not scanned. The members can be read back from the result. |
| EarliestConversion.ConvertMembers | src/JsonConvertion.ts:25-29 | Every description set is the conversion of its own members, so the wrap loses and invents nothing. |
| EarliestConversion.LegacyAgreement | src/JsonConversion.ts:23-34 | The flat converter that replaced it has the same keys in the same order. It tags a member `NoneString` exactly when the member is not a string, and then wraps the same value. It always succeeds when no member is a string. |

## Left out

- `JSON.parse`, the printer, `index.ts` and `TypeScriptPrinting.ts` are not modelled. The input is an already-parsed JSON datatype, and nothing is claimed about printed text.
- The `typescript` node factory is replaced by the abstract syntax tree in `TsAst`.
- `TypeScriptCreation.ts` (both copies) and the type-only files are not modelled. They are factory wrappers and declarations. Only the constant `n` is taken.
- JavaScript's `Object.keys` ordering rule is not modelled: integer-like keys first, in ascending order. Key order is the order of the input's entry sequence, and nothing is claimed about numeric ordering of plural branches.
- Numbers are unbounded integers. Floating point, and `parseInt` beyond 2^53, are not modelled.
- `null` is not a JSON value of the model. In the current converter it reaches `convertObject` and throws. The two older converters wrap a `null` member verbatim and do not throw; the legacy and earliest models cannot express that wrap.
- The `ArgType.Object` arm of `mapType` is not modelled. It names a member the enum does not have, so every type but `Number` maps to `string`.
- LegacyStructure.GetTypeFrom: tokens naming an `Object.prototype` member, such as `"toString"` or `"constructor"`, make the source return the inherited function. The model returns `String` for them.
- Strings are sequences of characters. UTF-16 surrogate pairs, as `split` and the regular expression see them, are not modelled.
- `getAllMatches` is specialised to the placeholder expression. It is not a general regular-expression engine.
- The current converter imports `placeholderRegex` and `getAllMatches` from `src/JsonToIntermediate/RegexUtils.ts`, which is not part of this model. Both converters are modelled with the older converter's expression (`src/JsonConversion.ts:16`) and the `getAllMatches` of `src/RegexUtils.ts`, on the assumption that the missing module holds the same.
- The `m` flag of the older expression is not modelled; it changes nothing for this expression, which has no anchors.
- The fallback of `createExpression`, `createLiteral(SyntaxKind.UndefinedKeyword)`, is modelled as `KeywordKindLiteral`: that call takes the number overload and builds the numeric literal of the keyword's kind, not `undefined`. It is never produced, since the tags are a closed datatype.
- Lazy generator evaluation is modelled as a method that collects the whole sequence.
