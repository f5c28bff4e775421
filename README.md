# laravilt-schemas: a verified model of the schema core

This project models, in Dafny, the core of the PHP package laravilt-schemas. The package describes form and page layouts as a tree of components. The model covers:

- the root `Schema`, which holds the top-level components;
- the layout containers `Section`, `Tab` and `Grid`;
- the documentation search of `SearchDocsTool`.

## The root `Schema`

A `Schema` holds an ordered list of components. Some components nest a `schema` list. Some hold `tabs`, and each tab has its own `schema`. The component tree is a datatype (`ComponentTree.Node`). The `Schema` object is a class whose one field, `schema`, its methods update.

`toLaraviltProps(&$data, $record, $changedField)` does three things in this order:

1. It runs the after-change callbacks of the changed field over the whole tree. All of them get the value the field had before any callback ran. The data passes from callback to callback.
2. It hands the resulting data and the record to every reachable component, hidden or not.
3. It serializes the visible components under their original keys.

Both walks are recursive loops (`ExecuteAfterStateUpdatedCallbacks`, `SetEvaluationContextRecursive`). `ExecuteAfterStateUpdatedCallbacks` is proved equal to `RunHooks` over the pre-order walk `Reach`, in which a component's nested schema comes before its tabs. `SetEvaluationContextRecursive` is proved equal to `WithContext`, and `ContextReachesAll` relates that to `Reach`. Whether a component is hidden may depend on the context it holds, so visibility is judged on the tree after the context walk.

## The layout containers

`Section`, `Tab` and `Grid` are classes with mutable fields, setters and getters, and the defaults that `setUp` applies. Section and Tab share `generateIdFromName`, which is modelled once, as `IdGen.GenerateIdFromName`. The proved properties are:

- the shape of a generated id;
- which letters and digits an id keeps;
- idempotence of id generation;
- the exact key sets and values of each component's props.

## The documentation search

The search is modelled as an imperative method, over an in-memory list of `(name, content)` files:

- it counts keyword matches per file;
- it splits each file into Markdown sections and keeps the relevant ones;
- it ranks the hits by relevance and keeps five.

Each method is proved equal to a specification function. The lemmas then state what those functions guarantee.

Files (one module each):

| file | module | contents |
|---|---|---|
| php.dfy | `Php` | the PHP value and string semantics used: `Option`, values, truthiness, ASCII `strtolower`, `trim`, `explode`, substring search |
| id_gen.dfy | `IdGen` | `generateIdFromName` and its properties |
| component_tree.dfy | `ComponentTree` | the component tree, the pre-order walk `Reach`, child serialization |
| schema.dfy | `Schemas` | visibility filter, callback walk, context walk, serialization, class `Schema` |
| section.dfy | `SectionComponent` | class `Section` |
| tab.dfy | `TabComponent` | class `Tab` |
| grid.dfy | `GridComponent` | class `Grid`, column configurations |
| search_docs.dfy | `SearchDocs` | header lines, sections, scoring, ranking, `extractRelevantSections`, `searchDocumentation` |

PHP semantics that the model writes out explicitly:

- **Truthiness.** `$changedField &&`, `! $this->id` and `!empty(trim(...))` treat `""` and `"0"` as false.
- **Case.** `stripos` ignores ASCII case in both operands (PHP 8.2 and later), so a keyword matches whatever the case of either side.
- **Empty needles.** `stripos` with an empty needle finds it at offset 0 (PHP 8).
- **Empty keywords.** `explode(' ')` yields empty keywords for leading, trailing or doubled spaces. An empty keyword then matches every text.
- **Stable sort.** `usort` is stable (PHP 8), so hits of equal relevance keep file order, then document order.
- **`\s`.** In PCRE, `\s` is space, tab, line feed, vertical tab, form feed and carriage return.
- **Backtracking in the header pattern.** In `^#+\s+(.+)$`, backtracking leaves the group one character when the whitespace runs to the end of the line.
- **`$` before a final newline.** In the translation-call pattern, `$` may match just before a final newline, which the replacement keeps.

## Model

| member | source | states |
|---|---|---|
| Php.Contains | src/Mcp/Tools/SearchDocsTool.php:90 | the case-sensitive substring test that `stripos` builds on: true exactly when the needle occurs at some offset; an empty needle always occurs. It agrees with `stripos` only when both operands are lower-case (`Php.StriposOfLower`) |
| Php.LowerIdempotent | src/Mcp/Tools/SearchDocsTool.php:86 | lower-casing an already lower-cased string changes nothing |
| Php.StriposIgnoresCase | src/Mcp/Tools/SearchDocsTool.php:90 | `stripos` gives the same answer when either operand is lower-cased first, so the source's `strtolower` of the text before `stripos` changes no answer |
| Php.StriposOfLower | src/Mcp/Tools/SearchDocsTool.php:130 | on lower-case text and a lower-case needle, `stripos` is the plain substring test |
| Php.StriposFindsOtherCase | src/Mcp/Tools/SearchDocsTool.php:140 | `stripos` finds `Foo` in `foo`, where the case-sensitive test does not |
| Php.ExplodeImplode | src/Mcp/Tools/SearchDocsTool.php:82 | `explode` loses nothing: joining the parts with the separator gives the input back |
| Php.Explode | src/Mcp/Tools/SearchDocsTool.php:114 | always at least one part, and no part contains the separator |
| Php.TrimStart | src/Components/Section.php:55 | `ltrim`: no longer than the input; every removed character is in the strip class, and the result does not start with one |
| Php.TrimStartIsSuffix | src/Components/Section.php:55 | what `ltrim` keeps is a suffix of its input |
| Php.TrimEnd | src/Components/Section.php:55 | `rtrim`: no longer than the input and, when non-empty, starting where the input starts; every removed character is in the strip class, and the result does not end with one |
| Php.TrimEndIsPrefix | src/Components/Section.php:55 | what `rtrim` keeps is a prefix of its input |
| Php.TrimByIsSlice | src/Components/Section.php:55 | what `trim` keeps is one contiguous slice of its input |
| Php.LowerChar | src/Components/Section.php:52 | ASCII `strtolower`: each upper-case letter becomes its own lower-case letter (same offset from `a` as from `A`), everything else is unchanged, and letters and digits stay letters and digits |
| IdGen.StripTranslation | src/Components/Section.php:49 | the translation-call replacement only changes a name that starts with `__(` or `trans(`, and then makes it shorter |
| IdGen.UnwrapsTranslationCall | src/Components/Section.php:49 | a whole-string `__('x')` or `trans("x")`, with either quote at either end and optionally one final newline, becomes `x` (with that newline kept) when `x` is non-empty and has no newline |
| IdGen.StripTranslationOnlyUnwraps | src/Components/Section.php:49 | the converse, from the `^…$` anchors: a name that changes is exactly one such call, optionally followed by one final newline, and becomes its inner text plus that newline; every other name comes back unchanged |
| IdGen.TrailingTextNotUnwrapped | src/Components/Section.php:49 | text after the closing parenthesis keeps the pattern from matching: `__('a') b` is left as it is |
| IdGen.SkipSeparatorsSpec | src/Components/Section.php:52 | skipping a run of non-alphanumerics removes a prefix made only of them, and what is left is empty or starts with a letter or digit |
| IdGen.CollapseNonAlnum | src/Components/Section.php:52 | no contract; its properties are in `IdGen.CollapseShape`, `IdGen.CollapseRun`, `IdGen.CollapseSplit`, `IdGen.CollapseJoin` and `IdGen.CollapseFixpoint` |
| IdGen.CollapseShape | src/Components/Section.php:52 | after the replacement, only letters, digits and `_` remain, no two `_` are adjacent, and the first character is kept if it is a letter or digit and is `_` otherwise |
| IdGen.CollapseRun | src/Components/Section.php:52 | a non-empty run of non-alphanumerics before a letter or digit becomes one `_` |
| IdGen.CollapseSplit | src/Components/Section.php:52 | the replacement restarts after each letter or digit: a string ending in one can be replaced independently of what follows |
| IdGen.CollapseJoin | src/Components/Section.php:52 | a run of non-alphanumerics between two letters or digits becomes exactly one `_`, and the two sides are replaced independently |
| IdGen.LowerKeepsShape | src/Components/Section.php:52 | lower-casing that result leaves only lower-case letters, digits and single underscores |
| IdGen.TrimUnderscoresShape | src/Components/Section.php:55 | trimming `_` from such a string gives an id: charset kept, no `__`, no `_` at either end |
| IdGen.GenerateIdFromName | src/Components/Section.php:46-56 | no contract; its properties are in `IdGen.GenerateIdIsId`, `IdGen.GenerateIdKeepsAlnum`, `IdGen.IdIsFixpoint`, `IdGen.GenerateIdIdempotent` and `IdGen.GenerateIdOfWords` (`Tab` calls the same function for its copy at src/Components/Tab.php) |
| IdGen.GenerateIdIsId | src/Components/Section.php:46-56 | every generated id uses only lower-case ASCII letters, digits and `_`, never contains `__`, and never starts or ends with `_` |
| IdGen.GenerateIdKeepsAlnum | src/Components/Section.php:46-56 | the letters and digits of the id are exactly those of the unwrapped name, lower-cased, in order |
| IdGen.CollapseFixpoint | src/Components/Section.php:52 | a string of letters, digits and single underscores is unchanged by the replacement |
| IdGen.IdIsFixpoint | src/Components/Section.php:46-56 | a string that already has the shape of an id is its own id |
| IdGen.GenerateIdIdempotent | src/Components/Section.php:46-56 | generating an id from a generated id gives the same id |
| IdGen.GenerateIdOfWords | src/Components/Section.php:46-56 | two words of letters and digits separated by a space give the two words lower-cased and joined by `_` ("My Section" gives `my_section`) |
| ComponentTree.ReachAppend | src/Schema.php:92-120 | the walk over a concatenation of component lists is the concatenation of the walks |
| ComponentTree.ReachCoversTree | src/Schema.php:90-121 | the walk visits every top-level component, and with each visited component every child of its nested schema and every child of each of its tabs |
| ComponentTree.ChildProps | src/Components/Section.php:143-146 | every child is serialized, hidden or not, in order, one item per child |
| Schemas.VisibleComponents | src/Schema.php:37-47 | no contract; its properties are in `Schemas.VisibleFromKeys`, `Schemas.VisibleFromOrdered` and `Schemas.VisibleComponentsSpec` |
| Schemas.Schema.GetVisibleComponents | src/Schema.php:37-47 | no contract; it is `Schemas.VisibleComponents` of the stored components, so the same rows apply |
| Schemas.SerializeItem | src/Schema.php:71-80 | no contract; its use is stated in `Schemas.SchemaEntriesSpec` |
| Schemas.CallbacksApply | src/Schema.php:61 | no contract; it is the guard stated in `Schemas.Schema.ToLaraviltProps` |
| Schemas.VisibleFromKeys | src/Schema.php:39-46 | every key the filter keeps from position `i` on lies between `i` and the end of the list |
| Schemas.VisibleFromOrdered | src/Schema.php:39-46 | the kept keys are strictly increasing |
| Schemas.VisibleComponentsSpec | src/Schema.php:37-47 | `getVisibleComponents` keeps the component under each of its keys. Every kept component lacks `isHidden` or is not hidden. A key is kept exactly when its component is visible. Order is preserved, and the result is shorter by exactly the number of hidden components |
| Schemas.SchemaEntriesSpec | src/Schema.php:69-83 | the props' `schema` has one entry per visible component, keyed by its original index, in order, holding that component's serialization; a hidden component has no entry and leaves a gap |
| Schemas.TriggeredSpec | src/Schema.php:136-166 | every component named like the changed field whose callback is a Closure contributes its callback, not just the first match; only those do; if none fires, nothing runs |
| Schemas.RunTriggeredAppend | src/Schema.php:136-190 | running the callbacks of two walks one after the other is running those of the joined walk |
| Schemas.RunNodeHooks | src/Schema.php:136-190 | at one component, its own callback runs first, then those of its nested schema, then those of its tabs |
| Schemas.ExecuteAfterStateUpdatedCallbacks | src/Schema.php:126-191 | the resulting data is that of running, in pre-order, every firing callback, each on the data the previous one left, all with the same `value` |
| Schemas.ExecuteInTabs | src/Schema.php:176-189 | the tabs part of the walk: the callbacks of each tab's schema, tab after tab |
| Schemas.NoMatchLeavesDataUnchanged | src/Schema.php:136-166 | when no reachable component fires, the data is left unchanged |
| Schemas.SetEvaluationContextRecursive | src/Schema.php:90-121 | the updated tree is the input tree with the context delivered to every reachable component that accepts one |
| Schemas.ContextReachesAll | src/Schema.php:90-121 | after the context walk, the k-th visited component is the k-th one before, hidden or not. Only its context differs, and it holds `(data, record)` when the component accepts a context |
| Schemas.WithContextLength | src/Schema.php:92-120 | the context walk keeps the number of components at each level |
| Schemas.VisibleAfterContext | src/Schema.php:37-47 | after the context walk, the components serialized are exactly those visible with the context they now hold, each under its original key |
| Schemas.ContextCanHide | src/Schema.php:67-83 | the order matters: a component hidden only once it holds a context is shown before the walk and hidden after it |
| Schemas.ContextKeepsVisible | src/Schema.php:67-83 | when receiving the context changes no top-level component's `isHidden()` answer (as when none reads the context), the same components are serialized under the same keys as before the walk |
| Schemas.Schema.constructor | src/Schema.php:14 | a new schema holds no components |
| Schemas.Schema.SetSchema | src/Schema.php:19-32 | after `schema(c)`, `getSchema()` is exactly `c` |
| Schemas.Schema.ToLaraviltProps | src/Schema.php:52-85 | The callbacks run only when `changedField` is truthy and a key of the data, all with the value it had before they ran; otherwise the data is unchanged. The tree then gets the post-callback data. The props keep every base key except `schema`, which holds the keyed serialization of the visible components |
| SectionComponent.Section.Make | src/Components/Section.php:28-41 | a new section has its heading set to its name and its id generated from its name, and is neither collapsible nor collapsed |
| SectionComponent.Section.SetUp | src/Components/Section.php:28-41 | the heading becomes the name only when unset; the id becomes the generated id only when unset or falsy; explicit values are kept |
| SectionComponent.Section.SetHeading | src/Components/Section.php:61-74 | setting then getting the heading round-trips |
| SectionComponent.Section.SetDescription | src/Components/Section.php:79-92 | setting then getting the description round-trips |
| SectionComponent.Section.SetIcon | src/Components/Section.php:97-110 | setting then getting the icon round-trips |
| SectionComponent.Section.SetCollapsible | tests/Unit/SectionTest.php:46-50 | the collapsible flag is what was set |
| SectionComponent.Section.SetCollapsed | tests/Unit/SectionTest.php:52-56 | the collapsed flag is what was set |
| SectionComponent.Section.SetSchema | src/Components/Section.php:117-130 | `schema(c)` replaces the children wholesale; `getSchema()` is exactly `c` |
| SectionComponent.Section.ToLaraviltProps | src/Components/Section.php:135-148 | the props are the base props plus heading, description, icon, collapsible, collapsed and schema, which win over the base; every other base key is kept; an unset text is `null`; `schema` serializes every child, in order |
| TabComponent.Tab.Make | src/Components/Tab.php:26-39 | a new tab has its label set to its name and its id generated from its name |
| TabComponent.Tab.SetUp | src/Components/Tab.php:26-39 | the label becomes the name only when unset; the id becomes the generated id only when unset or falsy |
| TabComponent.Tab.SetLabel | src/Components/Tab.php:59-72 | setting then getting the label round-trips, and overrides the name default |
| TabComponent.Tab.SetIcon | src/Components/Tab.php:77-90 | setting then getting the icon round-trips |
| TabComponent.Tab.SetBadge | src/Components/Tab.php:95-108 | setting then getting the badge round-trips |
| TabComponent.Tab.SetSchema | src/Components/Tab.php:115-128 | `schema(c)` replaces the children wholesale |
| TabComponent.Tab.ToLaraviltProps | src/Components/Tab.php:133-144 | the props are the base props plus label, icon, badge and schema; other base keys are kept; `schema` serializes every child, in order |
| GridComponent.ColumnsRoundTrip | src/Components/Grid.php:85-86 | the column configuration is read back unchanged from the props, every breakpoint included |
| GridComponent.Grid.Make | src/Components/Grid.php:24-38 | `make(int or array)` gives the name `grid` and exactly those columns; `make(name)` gives that name and one column; no argument gives the name `grid` |
| GridComponent.Grid.SetColumns | src/Components/Grid.php:45-58 | after `columns(x)`, `getColumns()` is exactly `x` |
| GridComponent.Grid.SetSchema | src/Components/Grid.php:65-78 | `schema(c)` replaces the children wholesale |
| GridComponent.Grid.ToLaraviltProps | src/Components/Grid.php:83-92 | the props keep the other base keys; `columns` reads back as `getColumns()`; `schema` serializes every child, in order |
| SearchDocs.Keywords | src/Mcp/Tools/SearchDocsTool.php:81-82 | there is always at least one keyword, even for an empty query |
| SearchDocs.KeywordsSpec | src/Mcp/Tools/SearchDocsTool.php:81-82 | the keywords contain no space, and joining them with single spaces gives the lower-cased query back, so empty keywords mark stray spaces |
| SearchDocs.HeaderText | src/Mcp/Tools/SearchDocsTool.php:119 | when the line is a header, the captured text is a non-empty proper suffix of it; the other properties are in `SearchDocs.HeaderTextOfShape`, `SearchDocs.HeaderTextBacktracks` and `SearchDocs.HeaderShape` |
| SearchDocs.PrefixRunSpec | src/Mcp/Tools/SearchDocsTool.php:119 | a greedy run (`#+`, `\s+`) is the longest prefix of matching characters |
| SearchDocs.HeaderTextOfShape | src/Mcp/Tools/SearchDocsTool.php:119 | `#`s, whitespace and then text not starting with whitespace is a header line whose captured text is that text |
| SearchDocs.HeaderTextBacktracks | src/Mcp/Tools/SearchDocsTool.php:119 | `#`s followed only by whitespace: with two or more whitespace characters the captured text is the last of them, and with one the line is not a header |
| SearchDocs.HeaderShape | src/Mcp/Tools/SearchDocsTool.php:119 | A header line starts with `#`. Its text is a non-empty suffix. Everything before the text is `#`s and whitespace, with whitespace just before the text |
| SearchDocs.MatchesAnyKeyword | src/Mcp/Tools/SearchDocsTool.php:129-134 | the keyword loop with `break` finds a match exactly when some keyword occurs in the text, ignoring case |
| SearchDocs.BlocksFlatten | src/Mcp/Tools/SearchDocsTool.php:114-146 | splitting into sections loses, duplicates and reorders no line |
| SearchDocs.BlocksShape | src/Mcp/Tools/SearchDocsTool.php:119-136 | the first section has no header, every other one is opened by a header line, and no header line is ever appended to a body |
| SearchDocs.BlocksCount | src/Mcp/Tools/SearchDocsTool.php:119-136 | there is one section per header line, plus the leading one |
| SearchDocs.ExtractRelevantSections | src/Mcp/Tools/SearchDocsTool.php:111-154 | the loop over the lines returns exactly the sections that are relevant and whose body is not blank, in document order. Each is `trim(header . "\n\n" . body)`. Keywords match header texts and lines ignoring case, as `stripos` does |
| SearchDocs.EmitAllSpec | src/Mcp/Tools/SearchDocsTool.php:121-122 | Every emitted text renders a relevant section whose body is not blank, and every such section is emitted. There is at most one text per section, and each is non-empty and trimmed |
| SearchDocs.RenderTrimmed | src/Mcp/Tools/SearchDocsTool.php:149-150 | an emitted text is non-empty and has no `trim` character at either end |
| SearchDocs.HeaderOnlyNotEmitted | src/Mcp/Tools/SearchDocsTool.php:121 | a section without body lines is never emitted, even when its header mentions a keyword |
| SearchDocs.EmptyKeywordMatchesEverything | src/Mcp/Tools/SearchDocsTool.php:82-93 | with an empty keyword (from a stray space), every text matches and every file scores above zero |
| SearchDocs.EmptyKeywordEmitsEveryNonBlankSection | src/Mcp/Tools/SearchDocsTool.php:135-150 | with an empty keyword, every section whose body is not blank is emitted |
| SearchDocs.KeywordCaseIgnored | src/Mcp/Tools/SearchDocsTool.php:127-131 | the keyword `Foo` is found in the header `# foo`, whose text `strtolower` leaves as `foo` |
| SearchDocs.KeywordCaseSelects | src/Mcp/Tools/SearchDocsTool.php:119-136 | so the section `# foo` with the body line `bar` is emitted for the keyword `Foo` |
| SearchDocs.SectionCountBound | src/Mcp/Tools/SearchDocsTool.php:119-151 | at most one emitted section per header line, plus one |
| SearchDocs.MatchCount | src/Mcp/Tools/SearchDocsTool.php:88-93 | the relevance never exceeds the number of keywords |
| SearchDocs.MatchCountPositive | src/Mcp/Tools/SearchDocsTool.php:88-95 | a file scores above zero exactly when some keyword occurs in its content, ignoring case |
| SearchDocs.HitsFor | src/Mcp/Tools/SearchDocsTool.php:97-103 | one hit per section, in order, each with the file's name and relevance |
| SearchDocs.FileResults | src/Mcp/Tools/SearchDocsTool.php:85-104 | the loop body for one file returns exactly that file's hits: none when no keyword occurs in the content, ignoring case |
| SearchDocs.CollectProvenance | src/Mcp/Tools/SearchDocsTool.php:84-105 | Every hit comes from a listed file. Its relevance is that file's match count, and its text is one of that file's relevant sections |
| SearchDocs.CollectRelevance | src/Mcp/Tools/SearchDocsTool.php:88-102 | every hit's relevance lies in `1..|keywords|` |
| SearchDocs.CollectComplete | src/Mcp/Tools/SearchDocsTool.php:84-105 | every relevant section of every file that mentions a keyword becomes a hit |
| SearchDocs.InsertPermutes | src/Mcp/Tools/SearchDocsTool.php:107 | inserting a hit adds exactly that hit |
| SearchDocs.InsertSorted | src/Mcp/Tools/SearchDocsTool.php:107 | inserting into a ranked list keeps it ranked |
| SearchDocs.SortByRelevance | src/Mcp/Tools/SearchDocsTool.php:107 | no contract; its properties are in `SearchDocs.InsertPermutes`, `SearchDocs.InsertSorted` and `SearchDocs.SortByRelevanceSpec` |
| SearchDocs.SortByRelevanceSpec | src/Mcp/Tools/SearchDocsTool.php:107 | the ranking has non-increasing relevance and the same hits. Hits of equal relevance keep their order |
| SearchDocs.TakeFive | src/Mcp/Tools/SearchDocsTool.php:108 | `array_slice($results, 0, 5)`: the first `min(5, n)` hits of the list, in order |
| SearchDocs.TakeFiveRanked | src/Mcp/Tools/SearchDocsTool.php:107-108 | the first five of a ranked list are ranked, and each is in the list |
| SearchDocs.TopFive | src/Mcp/Tools/SearchDocsTool.php:107-108 | no hit left out of the first five ranks above a hit that was kept |
| SearchDocs.RankedResults | src/Mcp/Tools/SearchDocsTool.php:107-108 | The result has at most five hits, in non-increasing relevance. Each is a collected hit with relevance in `1..|keywords|` |
| SearchDocs.SearchDocumentation | src/Mcp/Tools/SearchDocsTool.php:78-109 | The result is the first five of the stable ranking of all collected hits. So it has at most five hits, ranked, each collected from a file and with relevance in `1..|keywords|` |

## Left out

- Logging: `\Log::info` has no effect on the modelled state.
- Calling a callback: `app()->call` with its dependency injection, and the `Get`/`Set` helpers, are not part of this model. A callback is a function from `(value, data, record)` to the new data, standing for what it does through `Set`. The walk creates a `Set` once per level; the model threads the data through every callback in turn, which is what a shared `&$data` gives.
- `evaluate()` of Closure-valued headings, labels, descriptions, icons and badges is not part of this model. These texts are held as already-evaluated strings (`Option<string>`, `None` for `null`).
- The `Laravilt\Support\Component` base class is not part of this model. Nor are the `HasSchema` and `CanBeCollapsible` traits. Consequences:
  - `parent::toLaraviltProps()` is an opaque `base` map passed in;
  - `parent::setUp()` is not modelled;
  - `collapsible` and `collapsed` are plain fields with setters;
  - `evaluationContext` and `getName` are fields of the component datatype, and `isHidden` is a function, held by the component, of the context the component holds at the time it is asked.
- How each child serializes (`toLaraviltProps`, `toArray`) is an abstract function passed in.
- Aliasing: `setEvaluationContextRecursive` mutates the component objects it reaches. The model returns the updated tree as a new value, which the `Schema` stores. It does not capture several places sharing one component object.
- Missing child lists: a component without `getSchema`/`getTabs`, or one returning a non-array, has an empty child list in the model.
- Laravel's service container: `Grid::make` resolves the instance through `app(static::class)` and then calls `setUp()`. The model builds the new object directly. Grid has no `setUp` of its own, so there is nothing further to model.
- Array key order: Grid's responsive column arrays are string-keyed maps, so their key order is not kept.
- Strings: they are sequences of characters, not bytes. `strtolower` and the PCRE classes act on ASCII only, as they do without the `u` flag.
- `\s` in the header pattern: a newline inside a line cannot occur, because lines come from `explode("\n")`, so `.` and `$` need no further care there.
- `SearchDocsTool::handle`, `getDocumentationFiles` and `schema`: files are read from disk and the result goes out as an MCP response. The search here works over an in-memory list of `(name, content)` files.
- The `$query` parameter of `extractRelevantSections`: the source never uses it. The model keeps it and ignores it.
- `usort` is modelled by a stable insertion sort (`SortByRelevance`) that specifies the result. The ranking is not computed in place.
- Helper methods that the source does not have: `ExecuteInTabs` (the tabs part of the callback walk), `FileResults` (the body of the loop over the files) and `MatchesAnyKeyword` (the keyword loops with `break`). Each is an inline loop in the source, factored out for the proof.
- Files outside the core are not part of this model:
  - `Split`, `Fieldset` and `Columns`, whose sources are not shown;
  - `src/Components/Tabs/Tab.php`, an empty alias of `Tab`;
  - the `GenerateSchemaTool` and `MakeSchemaCommand` generators;
  - the service provider, the MCP server and the translation files.
- SectionComponent.Section.ToLaraviltProps: it states each text entry as `OptionalString` of the field, that is, `null` or the string. Closure evaluation is not modelled (see above).
- SectionComponent.Section.ToLaraviltProps: serializes every child with `toProps`. In the source the closure at src/Components/Section.php:144 is typed `fn (Component $component)`, so a child that is not a `Component` (an `Action`, say) raises a `TypeError`; the model does not capture that error.
- TabComponent.Tab.ToLaraviltProps: the same typed closure, at src/Components/Tab.php:140; the `TypeError` for a non-`Component` child is not modelled.
- GridComponent.Grid.ToLaraviltProps: the same typed closure, at src/Components/Grid.php:88; the `TypeError` for a non-`Component` child is not modelled.
