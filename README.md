# Media DB plugin core: template tags, markdown tables and helpers

This project is a Dafny model of the deterministic core of an Obsidian media-database
plugin. It covers the parts of `src/utils/Utils.ts` that turn media metadata into note
text, and the `MusicReleaseModel` record of `src/models/MusicReleaseModel.ts`:

- **Template tags.** `replaceTags` finds every `{{…}}` on a line, using a lazy match that
  stops at the first `}}` and never crosses a line terminator. It replaces each match with
  what `replaceTag` makes of it.
- **One tag.** `replaceTag` cuts off the braces, trims the body and splits it on `:`.
  - With one part, it walks the dotted path through the record.
  - With two parts, it walks the second part and applies the `LIST` or `ENUM` operator.
  - Every failure becomes an inline `{{ INVALID TEMPLATE TAG … }}` marker.
- **Path walk.** `traverseMetaData` walks the path one property at a time and stops
  moving once it reaches `undefined`.
- **Tables.** `markdownTable` renders a rectangular grid of strings. Each column is padded
  to its widest cell, and a dash separator follows the header row.
- **Numbers.** `mod` is true modulo, and `wrapAround` is `mod` with a check on the size.
- **Strings.** The file-name sanitiser, the letters-and-underscores check,
  `capitalizeFirstLetter` and `unCamelCase`.
- **Settings.** `migrateObject` refreshes a settings object from old data and defaults.
- **Music releases.** A `MusicReleaseModel` holds whatever properties its constructor
  argument carried, with `type` forced to `musicRelease`. The model covers its file name,
  its fixed tags, and the mapping it passes to the YAML serialiser.

Modules, one per file:

| file | module | contents |
|---|---|---|
| `wrappers.dfy` | `Wrappers` | `Option`, `Result` |
| `text.dfy` | `JsText` | the JavaScript string built-ins the core relies on: `split`, `join`, `trim` (with the ECMAScript white-space and line-terminator sets), and decimal numerals for array-index property keys |
| `values.dfy` | `Values` | the values a path can reach; property lookup `o[key]`; JavaScript's conversion of a value to text |
| `template.dfy` | `Template` | `replaceTags`, `replaceTag`, `traverseMetaData` |
| `table.dfy` | `MarkdownTable` | `markdownTable`: specification functions, and the imperative renderer proved equal to them |
| `helpers.dfy` | `Helpers` | `mod`, `wrapAround`, `replaceIllegalFileNameCharactersInString`, `containsOnlyLettersAndUnderscores`, `capitalizeFirstLetter`, `unCamelCase` |
| `migrate.dfy` | `Migration` | `migrateObject` |
| `music_release.dfy` | `MusicRelease` | `MusicReleaseModel` |

How the code is modelled:

- **Loops stay loops.** Code that works step by step in the source is imperative here:
  - `traverseMetaData` reassigns a variable in a loop;
  - `markdownTable` appends to a string in nested loops and pushes the column widths;
  - `migrateObject` assigns one key at a time;
  - the record's constructor updates fields in place.

  Each such method is proved to compute a specification function, and the properties are
  proved about that function.
- **Regular expressions.** Each regular expression in the source becomes a recursive
  function that scans the way the JavaScript engine does. Lemmas then state what the scan
  matches.

Details of the code that the model keeps:

- **The tag body is split on every `:`** (`tag.split(':')`, `src/utils/Utils.ts:48`), not
  only on the first. So a body with two or more colons is `{{ INVALID TEMPLATE TAG }}`
  (`Template.MalformedTag`).
- **The parts are not trimmed again after the split** (`src/utils/Utils.ts:60-62`).
  - In `{{ LIST : genres }}` the path is `" genres"`, so the tag reports "object undefined"
    unless that key exists.
  - In `{{ LIST :genres }}` the operator is `"LIST "`, so when `genres` is defined the tag
    reports an unknown operator (`Template.OperatorNotTrimmed`).

## Model

| member | source | states |
|---|---|---|
| Values.Lookup | src/utils/Utils.ts:93 | `o[part]`: an object's own property, a string's or an array's `length`, an element under a canonical index key, and `undefined` for anything else; `Values.ListElementKeys` states the index keys in both directions |
| Values.ToText | src/utils/Utils.ts:58 | the text `replace` makes of the value a tag returns: a string as it is, a number as its decimal numeral, an array joined by `,` |
| JsText.Split | src/utils/Utils.ts:48-50 | `split` with a one-character separator: the pieces between separators, at least one; `SplitShape`, `JoinSplit` and `SplitJoin` state it |
| JsText.Join | src/utils/Utils.ts:74-79 | `join`: the pieces with the separator between neighbours, `""` for no pieces; `JoinSplit` and `SplitJoin` relate it to `split` |
| JsText.Trim | src/utils/Utils.ts:46 | `trim`: the end trim of the start trim; `TrimIsSlice` states it |
| JsText.SplitShape | src/utils/Utils.ts:48 | `split` on a separator yields one more piece than the string has separators, and no piece contains the separator |
| JsText.JoinSplit | src/utils/Utils.ts:48 | joining the pieces of a split with the separator gives back the original string |
| JsText.SplitJoin | src/utils/Utils.ts:62 | splitting a join of at least one separator-free piece gives back exactly those pieces |
| JsText.SplitNoSeparator | src/utils/Utils.ts:50 | a string without the separator splits into itself alone |
| JsText.SplitPrefix | src/utils/Utils.ts:50 | a separator-free prefix joins the first piece of what follows it |
| JsText.TrimStartSpec | src/utils/Utils.ts:46 | the start trim drops only leading white space: its result is a suffix, everything before it is white space, and it does not start with white space |
| JsText.TrimEndSpec | src/utils/Utils.ts:46 | the end trim drops only trailing white space |
| JsText.TrimIsSlice | src/utils/Utils.ts:46 | `trim` gives the slice of the input that has only white space around it, and that slice neither starts nor ends with white space |
| JsText.ParseNatToText | src/utils/Utils.ts:93 | the decimal numeral of an index is a canonical array-index key that names that index |
| JsText.NatToTextParse | src/utils/Utils.ts:93 | every canonical array-index key is the numeral of the index it names |
| Values.ListElementKeys | src/utils/Utils.ts:93 | `o[part]` on an array finds element `i` under the numeral of `i`, and finds an element only under a canonical index key |
| Template.CloseFrom | src/utils/Utils.ts:37 | the lazy `.*?}}` ends at the earliest `}}` it can reach without crossing a line terminator, and it fails exactly when no such `}}` exists |
| Template.TagEnd | src/utils/Utils.ts:37 | the match of `{{.*?}}` at the front of a string is a smallest tag, and when there is none no prefix is a tag |
| Template.TagEndUnique | src/utils/Utils.ts:37 | a prefix of the text is a tag exactly when the match ends there |
| Template.Tokenize | src/utils/Utils.ts:37 | every piece the scan cuts out as a match is a tag |
| Template.FlattenTokenize | src/utils/Utils.ts:37 | the scan loses nothing: its pieces put back together are the template |
| Template.Walk | src/utils/Utils.ts:88-98 | the path walk that `traverseMetaData` performs, one property read per segment and no read once the value is `undefined`; `TraverseMetaData` is proved to compute it and `WalkAppend` and `MissingSegment` state its properties |
| Template.WalkAppend | src/utils/Utils.ts:88-98 | walking `p + q` walks `p` and then `q` from where `p` ended |
| Template.MissingSegment | src/utils/Utils.ts:91-95 | once a prefix of the path reaches `undefined` (a missing segment), the whole walk is `undefined` |
| Template.TraverseMetaData | src/utils/Utils.ts:88-98 | the loop that reassigns `o` once per segment returns exactly the value the path walk reaches from the record |
| Template.ApplyOperator | src/utils/Utils.ts:64-82 | what a two-part tag makes of the walked value: the "object undefined" marker first, then `LIST` and `ENUM` on arrays or their own markers, and the unknown-operator marker for any other operator; `Template.OperatorTag` states it for every tag |
| Template.ReplaceTag | src/utils/Utils.ts:42-86 | `replaceTag`: cut the braces, trim, split on `:` and dispatch on the number of parts; `PlainTag`, `OperatorTag` and `MalformedTag` state its three cases |
| Template.ReplaceTags | src/utils/Utils.ts:36-40 | `replaceTags`: the scan of the global lazy match, each match replaced by `replaceTag`; `FlattenTokenize`, `NoTagsUnchanged`, `UnmatchedPrefix` and `TagPrefix` state what it does |
| Template.TagBody | src/utils/Utils.ts:44-45 | the match without its two leading and two trailing characters |
| Template.ListText | src/utils/Utils.ts:74 | the `LIST` text: the `"- "` lines joined by line breaks; `Bullets` and `ListLines` state it |
| Template.EnumText | src/utils/Utils.ts:79 | the `ENUM` text: the elements joined by `", "` |
| Template.Bullets | src/utils/Utils.ts:74 | `LIST` makes one line per element, and line `i` is `"- "` followed by element `i` |
| Template.PlainTag | src/utils/Utils.ts:49-58 | a body without `:` yields the text of the value its dotted path reaches, or the "object undefined" marker when the path reaches nothing |
| Template.OperatorTag | src/utils/Utils.ts:59-82 | a body `op:path` yields "object undefined" when the path reaches nothing (whatever the operator), the operator's own marker when `LIST` or `ENUM` meets a non-array, the list or enumeration otherwise, and an echo of any other operator |
| Template.MalformedTag | src/utils/Utils.ts:85 | a body with two or more `:` yields exactly `{{ INVALID TEMPLATE TAG }}` |
| Template.ListLines | src/utils/Utils.ts:74 | for a non-empty list, the `LIST` output split on line breaks gives back the `"- "` lines, one per element, when no element contains a line break |
| Template.NoTagsUnchanged | src/utils/Utils.ts:36-40 | a template in which no match starts anywhere is returned unchanged |
| Template.PlainPrefix | src/utils/Utils.ts:37 | text containing no `{` passes through unchanged in front of the rest |
| Template.UnmatchedPrefix | src/utils/Utils.ts:37 | text at none of whose positions a match starts, including a `{{` whose `}}` lies past a line break or is missing, is copied through unchanged in front of the rest |
| Template.TagPrefix | src/utils/Utils.ts:37 | a leading tag is replaced by what `replaceTag` makes of that tag alone, and scanning resumes after it |
| Template.PlainHead | src/utils/Utils.ts:37 | a character at which no match starts, a `{` included, is copied and the scan resumes right after it |
| Template.OneSegmentWalk | src/utils/Utils.ts:50-52 | a path without `.` reaches the record's value under that key, or `undefined` when the key is missing |
| Template.SpacedPlainTag | src/utils/Utils.ts:43-58 | `{{ path }}`, with a path that has no `:` and no white space at its ends, yields the text of the value the dotted path reaches, or the "object undefined" marker |
| Template.SpacedOperatorTag | src/utils/Utils.ts:43-82 | `{{ op:path }}` written with single spaces applies the operator `op` to the value the path reaches |
| Template.WrittenPlainTemplate | src/utils/Utils.ts:36-58 | a template that is exactly `{{ key }}` renders the text of the record's value under `key`, or the "object undefined" marker when it is missing or `undefined` |
| Template.WrittenOperatorTag | src/utils/Utils.ts:59-82 | the tag `{{ op:key }}` applies `op` to the record's value under `key`, or to `undefined` when the key is missing |
| Template.SubstitutedTextNotRescanned | src/utils/Utils.ts:37 | text put in for a tag is not expanded again, even when it looks like a tag |
| Template.OperatorNotTrimmed | src/utils/Utils.ts:60 | the operator is not trimmed after the split: when `genres` is defined, `{{ LIST :genres }}` reports the unknown operator `"LIST "` |
| Template.ListOperatorRenders | src/utils/Utils.ts:70-74 | `{{ LIST:genres }}` on `["Rock", "Jazz"]` renders `- Rock`, a line break and `- Jazz` |
| Template.EnumOperatorRenders | src/utils/Utils.ts:75-79 | `{{ ENUM:genres }}` on `["Rock", "Jazz"]` renders `Rock, Jazz` |
| Template.EnumOnStringMarker | src/utils/Utils.ts:76-77 | `ENUM` on a string is the ENUM-specific marker |
| MarkdownTable.Table | src/utils/Utils.ts:100-149 | the table `markdownTable` returns: `""` for a refused grid, else the header row line, the separator line and the other row lines; `RenderTable` is proved to compute it and `TableEmptyIff` and `TableLayout` state its shape |
| MarkdownTable.ColumnWidth | src/utils/Utils.ts:118-124 | a column's width is at least the length of every cell in the column and equal to one of them (0 for no rows) |
| MarkdownTable.WidthsUpTo | src/utils/Utils.ts:116-127 | one width per column, each the column's widest cell |
| MarkdownTable.WidthsFit | src/utils/Utils.ts:116-127 | every cell fits its column's width, so the padding is never negative |
| MarkdownTable.Repeat | src/utils/Utils.ts:135 | `repeat(n)` gives `n` copies of the character |
| MarkdownTable.RenderTable | src/utils/Utils.ts:100-149 | the imperative renderer (early returns, validation loop, width loop, nested row loops) returns exactly the specified table |
| MarkdownTable.LongestStringInColumns | src/utils/Utils.ts:116-127 | the nested loops that push the column widths compute exactly the widest cell of each column |
| MarkdownTable.AppendRow | src/utils/Utils.ts:132-138 | one pass of the row loop appends exactly the padded row line |
| MarkdownTable.AppendSeparator | src/utils/Utils.ts:139-145 | the header pass appends exactly the dash separator line |
| MarkdownTable.CellShape | src/utils/Utils.ts:134-136 | a cell is its text padded with spaces to the column width, between a leading space and `" \|"` |
| MarkdownTable.LineShapes | src/utils/Utils.ts:132-145 | a row line and the separator line have the same length, and each starts with `\|` and ends with a line break |
| MarkdownTable.LinesLayout | src/utils/Utils.ts:131-146 | the lines are the header row, then the separator, then every other row in order |
| MarkdownTable.LinesUniform | src/utils/Utils.ts:131-146 | every line of a valid table has the same length and ends in a line break |
| MarkdownTable.TableEmptyIff | src/utils/Utils.ts:100-114 | the table is empty exactly when there are no rows, the first row is empty, or a row's length differs from the first row's |
| MarkdownTable.TableLayout | src/utils/Utils.ts:116-148 | a valid table is rows+1 lines of equal length, each ending in a line break, with the separator right after the header row and each column padded to its widest cell |
| MarkdownTable.TwoRowTable | src/utils/Utils.ts:131-146 | a valid two-row table is the header row's line, the separator line and the second row's line |
| MarkdownTable.TwoByTwoTable | src/utils/Utils.ts:100-149 | `[["a","bb"],["ccc","d"]]` renders as `\| a   \| bb \|`, `\| --- \| -- \|`, `\| ccc \| d  \|` |
| MarkdownTable.RefusedTables | src/utils/Utils.ts:101-113 | no rows, and a ragged grid, both render as `""` |
| Helpers.JsRem | src/utils/Utils.ts:183 | JavaScript's `%` on integers, which truncates toward zero; `JsRemSpec` states its range and sign |
| Helpers.JsRemSpec | src/utils/Utils.ts:183 | JavaScript's `%` leaves a remainder smaller than the divisor and with the dividend's sign |
| Helpers.Mod | src/utils/Utils.ts:182-184 | `((n % m) + m) % m` with JavaScript's truncating `%`; `Helpers.ModSpec` states that it is true modulo |
| Helpers.ModSpec | src/utils/Utils.ts:182-184 | `mod` is true modulo: for a positive modulus the result is in `[0, m)` and is the mathematical remainder; for a negative one it is in `(m, 0]`; and it always differs from `n` by a multiple of `m` |
| Helpers.WrapAround | src/utils/Utils.ts:11-16 | fails with "size may not be zero or negative" exactly when `size <= 0`; otherwise the result is in `[0, size)` and congruent to `value` modulo `size` |
| Helpers.WrapAroundExamples | src/utils/Utils.ts:11-16 | `wrapAround(-1,5) = 4`, `wrapAround(5,5) = 0`, `wrapAround(7,5) = 2`, and `wrapAround(3,0)` throws |
| Helpers.StripIllegal | src/utils/Utils.ts:33 | the first replace leaves none of the illegal characters |
| Helpers.StripIllegalKeeps | src/utils/Utils.ts:33 | the first replace adds no character: every character of its result occurs in the input |
| Helpers.StripIllegalAppend | src/utils/Utils.ts:33 | illegal characters are removed piece by piece |
| Helpers.StripIllegalClean | src/utils/Utils.ts:33 | a string without illegal characters passes the first replace unchanged |
| Helpers.DropColonsSuffix | src/utils/Utils.ts:33 | what follows a leading run of `:` is a suffix of the text that does not start with `:` |
| Helpers.DropColonsOnlyColons | src/utils/Utils.ts:33 | a leading run of `:` consists of colons only |
| Helpers.DropColonsRun | src/utils/Utils.ts:33 | a run of `k` colons in front of text that does not start with `:` is consumed whole, whatever `k` is |
| Helpers.CollapseColons | src/utils/Utils.ts:33 | the second replace leaves no `:` |
| Helpers.CollapseColonsChars | src/utils/Utils.ts:33 | the second replace adds no character other than a space and a hyphen |
| Helpers.ColonRun | src/utils/Utils.ts:33 | each maximal run of `:`, of any length, becomes exactly `" -"`, and the text on either side is treated on its own |
| Helpers.CollapseNoColons | src/utils/Utils.ts:33 | a string without `:` passes the second replace unchanged |
| Helpers.ReplaceIllegalFileNameCharacters | src/utils/Utils.ts:32-34 | the sanitised name contains none of `\ , # % & { } / * < > $ " @ . ?` and no `:` |
| Helpers.FileNameExample | src/utils/Utils.ts:32-34 | `"A:B::C"` becomes `"A -B -C"` |
| Helpers.ContainsOnlyLettersAndUnderscores | src/utils/Utils.ts:28-30 | `/^[a-zA-Z_]+$/` holds exactly for a non-empty string of ASCII letters and underscores |
| Helpers.CapitalizeFirstLetter | src/utils/Utils.ts:186-188 | the length is unchanged and the rest is unchanged; a lower-case first letter becomes the upper-case letter at the same distance from `A` as it had from `a`; a string whose first character is not lower case is returned as it is |
| Helpers.CapitalizeIdempotent | src/utils/Utils.ts:186-188 | capitalising twice is capitalising once |
| Helpers.SpaceLowerUpper | src/utils/Utils.ts:226 | the first replace `/([a-z])([A-Z])/g` to `"$1 $2"`, scanning on after each pair; it keeps the first character, and the lemmas below state the rest |
| Helpers.SpaceLowerUpperSeparates | src/utils/Utils.ts:226 | after the first replace no lower-case letter is directly followed by an upper-case one |
| Helpers.SpaceLowerUpperOnlySpaces | src/utils/Utils.ts:226 | the first replace adds nothing but spaces: with spaces removed, its result equals its input |
| Helpers.SpaceLowerUpperLength | src/utils/Utils.ts:226 | the first replace lengthens the string by exactly the number of positions where a lower-case letter is followed by an upper-case one |
| Helpers.SpaceLowerUpperCons | src/utils/Utils.ts:226 | a character in front of a string is kept, with one space after it exactly when it is lower case and the string starts with an upper-case letter |
| Helpers.SpaceLowerUpperAppend | src/utils/Utils.ts:226 | the first replace of `a + b` is the replace of `a`, then one space exactly when `a` ends in a lower-case letter and `b` starts with an upper-case one, then the replace of `b`; with single characters kept, this fixes the result on every string, the input's own spaces included |
| Helpers.SpaceLowerUpperSpec | src/utils/Utils.ts:226 | after the first replace no lower-case letter is directly followed by an upper-case one; it adds nothing but spaces, and exactly one per lower-then-upper pair of the input |
| Helpers.SpaceLowerUpperNoPair | src/utils/Utils.ts:226 | a string without a lower-then-upper pair passes the first replace unchanged |
| Helpers.SpaceLowerUpperIdempotent | src/utils/Utils.ts:226 | the first replace is idempotent |
| Helpers.UpperRunEnd | src/utils/Utils.ts:228 | the greedy `[A-Z]+` stops at the first character that is not a capital |
| Helpers.AcronymSplitAtSpec | src/utils/Utils.ts:228 | `\b([A-Z]+)([A-Z])([a-z])` matches at `j`, with the space going before `p`, exactly when a word starts at `j`, `s[j..p]` are at least two capitals and `s[p+1]` is lower case |
| Helpers.FirstAcronymFrom | src/utils/Utils.ts:228 | the non-global replace acts at the leftmost position where the pattern matches, or nowhere when it matches nowhere |
| Helpers.SpaceBeforeLastUpper | src/utils/Utils.ts:228 | the second replace, not global: a space before the last capital of the leftmost acronym followed by a lower-case letter, or no change; `FirstAcronymFrom` and `AcronymSplitAtSpec` state where |
| Helpers.UpperFirst | src/utils/Utils.ts:230 | the third replace: the first character upper-cased unless it is a line terminator, which `/^./` does not match |
| Helpers.UpperFirstIsCapitalize | src/utils/Utils.ts:230 | upper-casing `/^./` is `capitalizeFirstLetter`, because a line terminator is never lower case |
| Helpers.UnCamelCase | src/utils/Utils.ts:223-231 | the three replaces of `unCamelCase` in the source's order; the lemmas on each replace above state what each does |
| Helpers.UnCamelCaseAcronym | src/utils/Utils.ts:223-231 | `"XMLHttp"` becomes `"XML Http"` |
| Migration.Migrated | src/utils/Utils.ts:217-221 | the properties `migrateObject` leaves on the object; `MigratedSpec` states them key by key and `MigrateObject` is proved to produce them |
| Migration.MigratedSpec | src/utils/Utils.ts:217-221 | after migration the object has exactly its old keys; each value comes from the old data when it has the key, else from the defaults, else `undefined` |
| Migration.MigrationIgnoresCurrentValues | src/utils/Utils.ts:218-219 | the object's current values play no part, only its keys do |
| Migration.MigrationIdempotent | src/utils/Utils.ts:217-221 | migrating twice with the same data is migrating once |
| Migration.MigrationFromCompleteData | src/utils/Utils.ts:219 | old data holding every key of the object is restored on those keys, whatever the defaults |
| Migration.MigrateObject | src/utils/Utils.ts:217-221 | the loop that assigns one key at a time leaves the object holding exactly the migrated properties |
| MusicRelease.Constructed | src/models/MusicReleaseModel.ts:22-28 | after construction the keys are the argument's plus `type`; `type` is `"musicRelease"` whatever the argument carried; every other property is copied unchanged |
| MusicRelease.MusicReleaseModel.constructor | src/models/MusicReleaseModel.ts:22-28 | `Object.assign` and the `type` assignment leave the record's properties equal to `Constructed(obj)` |
| MusicRelease.MusicReleaseModel.Tags | src/models/MusicReleaseModel.ts:38-40 | the tags are exactly `mediaDB`, `music`, `album` |
| MusicRelease.TagsText | src/models/MusicReleaseModel.ts:31 | the tags joined by `/` after `#` are `#mediaDB/music/album` |
| MusicRelease.MusicReleaseModel.FileName | src/models/MusicReleaseModel.ts:34-36 | the file name exists exactly when `artists` is an array; it then starts with the title's text followed by `" ("` and ends with `)` |
| MusicRelease.FileNameLayout | src/models/MusicReleaseModel.ts:35 | with text-valued title, year and sub-type, the file name is the title, `" ("`, the artists joined by `", "`, `" - "`, the year, `" - "`, the sub-type and `)` |
| MusicRelease.ReleaseFileNameExample | src/models/MusicReleaseModel.ts:34-36 | title `Blue`, artists `A` and `B`, year `1971` and sub-type `album` give `Blue (A, B - 1971 - album)` |
| MusicRelease.MusicReleaseModel.MetaData | src/models/MusicReleaseModel.ts:30-32 | the mapping given to the YAML serialiser is the record's properties plus `tags = "#mediaDB/music/album"`, with every other property unchanged |
| MusicRelease.TypeTagRenders | src/models/MusicReleaseModel.ts:27 | in a constructed record, the template `{{ type }}` renders as `musicRelease` |

## Left out

- `dateToString`, `timeToString` and `dateTimeToString` depend on the JavaScript `Date`
  object and the local time zone.
- `debugLog` only writes to the console.
- `ICON_LIST` is static data with no behaviour.
- The error classes and the `CreateNoteOptions` interface carry no logic.
- `stringifyYaml` is a function of the host application. Only the mapping handed to it is
  modelled (`MusicRelease.MusicReleaseModel.MetaData`).
- `MediaTypeModel.ts`, the base class of the record, is not part of this model. The base
  constructor is taken to define no properties.
- `MusicRelease.Constructed` assumes that the fields declared without initialisers in
  `src/models/MusicReleaseModel.ts:7-20` create no own properties, as TypeScript compiles
  them with `useDefineForClassFields` off. With that option on, all twelve exist as
  `undefined` after `super()` and also reach the mapping given to `stringifyYaml`.
- `null` is not modelled. In the source, a plain tag whose path ends at `null` renders as
  the text `null`, because only `undefined` is reported as missing. An operator tag on
  `null` gives the `LIST` or `ENUM` "only applicable on an array" marker, or the
  unknown-operator marker. A path that reads a property of `null`, `migrateObject` on
  `null` old data, and `getFileName` with `null` artists all throw a `TypeError`.
- Prototype members are not modelled. A path segment naming a method or an inherited
  property, such as `toString` or `getFileName`, reads as `undefined` here.
- Values are `undefined`, strings, integers, arrays of strings and objects. Booleans, arrays
  of numbers or objects, and nested arrays are not modelled. So `{{ flag }}` rendering `true`
  or `LIST` on `[1, 2]` cannot be stated.
- Numbers are integers. `NaN`, infinities, fractions, and the exponent notation JavaScript
  uses for numbers of 1e21 and above are not modelled.
  - `Helpers.ModSpec`: `mod(n, 0)` (which gives `NaN`) is excluded by a precondition.
- Lengths are counted in code points, not UTF-16 code units. A character outside the Basic
  Multilingual Plane therefore counts once, not twice, in the column widths of
  `markdownTable`.
- `Helpers.CapitalizeFirstLetter` upper-cases ASCII letters only. JavaScript's
  `toUpperCase` also maps other scripts and can lengthen a string (`ß` becomes `SS`).
- `Helpers.AcronymSplitAtSpec`: `\b` and `\w` are the ASCII classes, which is what
  JavaScript uses without the `u` flag. Other regular-expression features do not occur
  in these patterns.
- `Migration.MigrateObject` assigns the keys in an unspecified order. `for … in` visits
  integer-like keys first, in ascending order, and then the other keys in insertion
  order. The result is the same because each assignment touches only its own key.
  Inherited enumerable keys are not modelled.
- `MusicRelease.MusicReleaseModel.FileName`: a missing or non-array `artists` makes
  `join` throw. This is modelled as `None`, without the error text.
