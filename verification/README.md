# Treatment summaries, patient identifiers and the symptom library

This project models three pieces of a clinic application and proves properties about them.

- **Treatment summary parsing and rendering**, from `TreatmentSummaryCard.tsx`.
  - `parseSummary` turns the AI-generated treatment summary into titled sections, one per header line.
  - `getIcon` picks each section's icon from keywords in its title.
  - `FormattedContent` lays out a section's body as a table or as bullet and paragraph lines.
  - `InlineFormatted` splits a line into plain and bold spans around `**…**`.
- **Patient identifiers**: `generatePatientId` from `usePatients.ts`. It builds `EH-<year>-<number>` from the highest identifier of the year.
- **The symptom library page** (`Symptoms.tsx`). It covers:
  - the sorted category list;
  - the search and category filter;
  - grouping by category;
  - who may edit a symptom;
  - the add and edit dialog and its submit guard.

Modules:

- `Wrappers` holds `Option`.
- `Text` models the JavaScript string operations the code relies on:
  - the `\s`/`trim()` white-space set;
  - `trimStart`, `trimEnd` and `trim`;
  - ASCII `toLowerCase`;
  - `includes`, `startsWith` and `endsWith`;
  - `split` and `join`;
  - code-unit order.
- `Collections` models `filter` and `map`.
- `SummaryParser` models `parseSummary` and `getIcon`.
- `SummaryContent` models `FormattedContent` and `InlineFormatted`.
- `PatientIds` models `generatePatientId`, `parseInt`, `String(n)` and `padStart`.
- `SymptomLibrary` models the page logic of `Symptoms.tsx`.

`parseSummary` works by mutating an open section in a loop. It is modelled as the method `ScanLines`, which has that loop, its invariants, and a `Scan` function that follows the loop step by step. A second, declarative definition, `Sections`, describes the same result as one section per header line plus the optional leading section; `ScanIsSections` proves the two agree. `groupedSymptoms` is a `reduce` that fills a plain object. It is modelled as the method `GroupByCategory`, a `while` loop over a `map`, whose step is the method `AddToGroup` (the callback). A plain object inherits names such as `constructor`, `toString` and `__proto__` from `Object.prototype`. For a category with one of those names, `acc[category]` is already truthy, no array is created, and the `push` throws a `TypeError`. The method reports that as `failed`.

The remaining operations are pure and are modelled as functions. A rendered line is a sequence of `Plain`/`Bold` spans. Section content becomes either a `Table` or a sequence of `Bullet`/`Paragraph` blocks.

## Model

| member | source | states |
|---|---|---|
| SummaryParser.GetIconIsFirstMatch | src/components/consultation/TreatmentSummaryCard.tsx:17-24 | `getIcon` is the first-match rule over the priority table shield, beaker, pill, heart; clipboard when no keyword occurs in the lower-cased title |
| SummaryParser.GetIconPriority | src/components/consultation/TreatmentSummaryCard.tsx:17-24 | each icon is given exactly when its keyword group occurs and no earlier group does, both directions |
| SummaryParser.GetIconCaseInsensitive | src/components/consultation/TreatmentSummaryCard.tsx:18-22 | lower-casing the title first does not change its icon |
| SummaryParser.BoldCaptureSound | src/components/consultation/TreatmentSummaryCard.tsx:27 | a match of `^\*\*(.+?)\*\*:?\s*$` is `**x**` followed by an optional colon and white space, with `x` non-empty and free of line terminators |
| SummaryParser.BoldCaptureComplete | src/components/consultation/TreatmentSummaryCard.tsx:27 | every line of that shape matches, and the capture is exactly its `x` |
| SummaryParser.NumberedCaptureSound | src/components/consultation/TreatmentSummaryCard.tsx:28 | a match of `^\d+\.\s*\*\*(.+?)\*\*:?\s*$` is digits, a dot, white space, then the bold header shape |
| SummaryParser.NumberedCaptureComplete | src/components/consultation/TreatmentSummaryCard.tsx:28 | every line of the numbered shape matches with that shape's capture |
| SummaryParser.BoldShapeIsHeader | src/components/consultation/TreatmentSummaryCard.tsx:27-32 | a line of the plain shape is a header whose title is the trimmed capture |
| SummaryParser.NumberedShapeIsHeader | src/components/consultation/TreatmentSummaryCard.tsx:28-32 | a line of the numbered shape is a header whose title is the trimmed capture |
| SummaryParser.HeaderHasShape | src/components/consultation/TreatmentSummaryCard.tsx:27-32 | every header line has one of the two shapes, and its title is the trimmed capture |
| SummaryParser.Classify | src/components/consultation/TreatmentSummaryCard.tsx:27-38 | a line is a header exactly when one of the two patterns matches, carrying the trimmed title and `getIcon` of it; it is blank exactly when `line.trim()` is empty |
| SummaryParser.Lines | src/components/consultation/TreatmentSummaryCard.tsx:14 | one classified line per piece of `text.split('\n')`, in order, and joining the lines' texts with `\n` gives back the summary |
| SummaryParser.LinesOfJoin | src/components/consultation/TreatmentSummaryCard.tsx:14 | lines free of `\n`, joined with `\n`, are split back into exactly those lines |
| SummaryParser.ParseSummary | src/components/consultation/TreatmentSummaryCard.tsx:10-48 | `parseSummary` returns the reference segmentation `Sections` of the summary's lines |
| SummaryParser.ScanLines | src/components/consultation/TreatmentSummaryCard.tsx:26-45 | the loop with its mutable open section emits exactly `Sections(lines)` |
| SummaryParser.ScanIsSections | src/components/consultation/TreatmentSummaryCard.tsx:26-45 | the step-by-step scan equals the declarative segmentation |
| SummaryParser.GrowFromEmpty | src/components/consultation/TreatmentSummaryCard.tsx:33-35 | a section opened with empty content collects its lines from the first non-empty one on, joined by newlines |
| SummaryParser.GrowNonEmpty | src/components/consultation/TreatmentSummaryCard.tsx:35 | once the content is non-empty, every further line is added after a newline |
| SummaryParser.BodyFromIsJoin | src/components/consultation/TreatmentSummaryCard.tsx:33-35 | a headed section's content is its lines, less the empty lines that open it, joined by `\n` |
| SummaryParser.RunNone | src/components/consultation/TreatmentSummaryCard.tsx:36-43 | before any header, blank lines are skipped and the first non-blank line opens the `विश्लेषण` section that collects the rest |
| SummaryParser.SectionsFollowHeaders | src/components/consultation/TreatmentSummaryCard.tsx:30-33 | the headed sections follow the header lines one for one, each with its header's title and icon |
| SummaryParser.SectionCount | src/components/consultation/TreatmentSummaryCard.tsx:30-45 | one section per header, plus one exactly when a non-blank line precedes the first header |
| SummaryParser.PreambleSection | src/components/consultation/TreatmentSummaryCard.tsx:36-42 | text before the first header that is not blank becomes the first section, titled `विश्लेषण` with the shield icon |
| SummaryParser.NoPreamble | src/components/consultation/TreatmentSummaryCard.tsx:36-42 | when the first non-blank line is a header, every section is a headed one |
| SummaryParser.BlankLinesNoSections | src/components/consultation/TreatmentSummaryCard.tsx:38-45 | a summary made only of blank lines has no sections |
| SummaryParser.EmptySummary | src/components/consultation/TreatmentSummaryCard.tsx:10-48 | the empty summary has no sections |
| SummaryParser.HeaderNotBlank | src/components/consultation/TreatmentSummaryCard.tsx:27-28 | a header line is never blank |
| SummaryContent.InlineLossless | src/components/consultation/TreatmentSummaryCard.tsx:134 | the parts of `text.split(/(\*\*.*?\*\*)/g)` concatenate back to the text |
| SummaryContent.SplitFromLossless | src/components/consultation/TreatmentSummaryCard.tsx:134 | the split from any position loses nothing of the rest of the text |
| SummaryContent.InlineAlternates | src/components/consultation/TreatmentSummaryCard.tsx:134 | the parts alternate: even parts hold no `**…**` span without a line terminator inside, odd parts are lazily closed bold spans |
| SummaryContent.CloseFromSound | src/components/consultation/TreatmentSummaryCard.tsx:134 | the lazy `.*?` stops at the first `**` and never crosses a line terminator |
| SummaryContent.CloseFromComplete | src/components/consultation/TreatmentSummaryCard.tsx:134 | a `**` reachable without a line terminator is always found |
| SummaryContent.MatchIsLazyBold | src/components/consultation/TreatmentSummaryCard.tsx:134 | every match is `**`, text with no line terminator and no inner `**`, then `**` |
| SummaryContent.NoMatchNoShape | src/components/consultation/TreatmentSummaryCard.tsx:134 | where no match starts, no bold shape lies |
| SummaryContent.BoldPartShown | src/components/consultation/TreatmentSummaryCard.tsx:138-139 | a matched part is shown bold, and putting back two stars on each side gives the part |
| SummaryContent.PlainPartShown | src/components/consultation/TreatmentSummaryCard.tsx:138-141 | an unmatched part is shown bold only when it is `**`, `***`, or has a line terminator inside |
| SummaryContent.InlineSpans | src/components/consultation/TreatmentSummaryCard.tsx:134-142 | one span per part, an odd number of them, every odd one bold with its stars removed |
| SummaryContent.NoStarsPlain | src/components/consultation/TreatmentSummaryCard.tsx:134-141 | text without `*` is one plain span |
| SummaryContent.ContentLinesMembers | src/components/consultation/TreatmentSummaryCard.tsx:68 | the lines considered are exactly the non-blank lines of the trimmed content, each as often as it occurs there, in order |
| SummaryContent.TableLineIff | src/components/consultation/TreatmentSummaryCard.tsx:71 | a line passes the table test exactly when it holds at least two `\|` |
| SummaryContent.AnyTableLineIff | src/components/consultation/TreatmentSummaryCard.tsx:71 | `lines.some(...)` holds exactly when some line holds two `\|` |
| SummaryContent.CellsClean | src/components/consultation/TreatmentSummaryCard.tsx:76 | cells are trimmed, non-empty and not dash runs, and every piece that trims to such a cell is kept |
| SummaryContent.TableRowsFrom | src/components/consultation/TreatmentSummaryCard.tsx:74-77 | rows come only from lines holding a `\|`, and each such line whose cells are not all dropped gives a row |
| SummaryContent.TableRowsInOrder | src/components/consultation/TreatmentSummaryCard.tsx:74-77 | the rows are the cells of the lines that hold a `\|` and keep a cell, one row per such line, in line order and with repeats |
| SummaryContent.DashRowFilterNoOp | src/components/consultation/TreatmentSummaryCard.tsx:93 | the body's all-dashes filter never drops a row, because the cell filter already removed dash cells |
| SummaryContent.FormatTableIff | src/components/consultation/TreatmentSummaryCard.tsx:71-79 | table mode exactly when some line holds two `\|` and at least two rows survive, per-line mode otherwise |
| SummaryContent.FormatTableRows | src/components/consultation/TreatmentSummaryCard.tsx:85-97 | the header is the first row as it is; the body is every later row in order, each cell inline formatted |
| SummaryContent.TableHeaderClean | src/components/consultation/TreatmentSummaryCard.tsx:85-88 | header cells are non-empty, trimmed and not dash runs |
| SummaryContent.FormatBlocks | src/components/consultation/TreatmentSummaryCard.tsx:109-127 | in per-line mode every non-blank line becomes exactly one block, in order |
| SummaryContent.BulletIff | src/components/consultation/TreatmentSummaryCard.tsx:114 | a line is a bullet exactly when it starts with `-` or `*` and a white-space character, or with `•` and a space |
| SummaryContent.BulletStripped | src/components/consultation/TreatmentSummaryCard.tsx:114-118 | the item is the line less its marker and all the white space after it |
| SummaryContent.BoldLineIsParagraph | src/components/consultation/TreatmentSummaryCard.tsx:114-125 | a line opening with `**` is a paragraph, never a bullet |
| SummaryContent.EmptyContent | src/components/consultation/TreatmentSummaryCard.tsx:67-68 | empty content draws nothing |
| Text.TrimEmptyIffBlank | src/pages/Symptoms.tsx:101 | `!s.trim()` holds exactly when the string is all white space |
| Text.TrimInfix | src/components/consultation/TreatmentSummaryCard.tsx:68 | `trim()` is an infix of the string with nothing but white space cut off before and after it |
| PatientIds.FirstOfYear | src/hooks/usePatients.ts:100-107 | the first identifier of a year is `EH-<year>-0001` |
| PatientIds.FollowsNumeral | src/hooks/usePatients.ts:101-107 | after an identifier whose last part is a numeral, the number is one more, padded to four digits |
| PatientIds.JunkGivesNaN | src/hooks/usePatients.ts:103-107 | any last part that `parseInt` reads as `NaN` gives the suffix `0NaN` |
| PatientIds.NextNumberPositive | src/hooks/usePatients.ts:100-104 | the next number is `NaN` or at least 1 |
| PatientIds.GeneratedForm | src/hooks/usePatients.ts:100-107 | every generated identifier is the prefix and either `0NaN` or a numeral of at least four digits worth at least 1 |
| PatientIds.NumberRoundTrip | src/hooks/usePatients.ts:103-107 | `parseInt` of the last part of a generated identifier gives back its number |
| PatientIds.ParseNumeral | src/hooks/usePatients.ts:103 | `parseInt` of a numeral is its value |
| PatientIds.ParseJunk | src/hooks/usePatients.ts:103 | `parseInt` of text starting with neither white space, a sign nor a digit is `NaN` |
| PatientIds.LastSegmentOfGenerated | src/hooks/usePatients.ts:103 | `split('-').pop()` of a generated identifier is its number part |
| PatientIds.DecimalRoundTrip | src/hooks/usePatients.ts:107 | reading back `String(n)` gives `n` |
| PatientIds.PadValue | src/hooks/usePatients.ts:107 | `padStart(4, '0')` keeps a numeral's value |
| PatientIds.SameLengthOrder | src/hooks/usePatients.ts:97 | for numerals of equal length, the text order of the query is numeric order, both directions |
| PatientIds.HighestByTextIsGreatest | src/hooks/usePatients.ts:93-98 | the query returns a stored identifier with the prefix that no other one exceeds in code-unit order, and nothing only when there is none |
| PatientIds.AfterFourDigits | src/hooks/usePatients.ts:101-107 | after a four-digit identifier comes the prefix and a numeral worth one more |
| PatientIds.UniqueWhileFourDigits | src/hooks/usePatients.ts:87-107 | while every identifier of the year has four digits, the generated identifier is not already stored |
| PatientIds.PastFourDigits | src/hooks/usePatients.ts:103-107 | the generator goes from `…-9998` to `…-9999` to `…-10000` |
| PatientIds.StringOrderCollision | src/hooks/usePatients.ts:92-107 | with `EH-<year>-9999` and `EH-<year>-10000` stored, the query picks the former and the identifier generated is the latter, already stored |
| PatientIds.HighestNumberIsGreatest | src/hooks/usePatients.ts:92-98 | the corrected lookup is the greatest number among the year's identifiers |
| PatientIds.FreshIdIsNew | src/hooks/usePatients.ts:87-107 | the corrected identifier is never one already stored |
| PatientIds.FreshAgreesWhileFourDigits | src/hooks/usePatients.ts:92-107 | while every number has four digits, the correction generates the same identifier as the code |
| SymptomLibrary.AllCategoriesSpec | src/pages/Symptoms.tsx:60 | the category list is sorted and duplicate-free, and holds exactly the defaults and the loaded categories |
| Text.AstralBeforeReplacementChar | src/pages/Symptoms.tsx:60 | `sort()` compares UTF-16 code units, so a character outside the Basic Multilingual Plane sorts before U+FFFD although its code point is larger |
| SymptomLibrary.SortedSetSpec | src/pages/Symptoms.tsx:60 | `[...new Set(items)].sort()` is sorted and holds exactly the items |
| SymptomLibrary.StrictlySortedUnique | src/pages/Symptoms.tsx:60 | a sorted, duplicate-free list is fixed by its elements, so the list does not depend on the order of insertion |
| SymptomLibrary.FilterSymptomsSpec | src/pages/Symptoms.tsx:62-69 | a symptom is listed exactly when it matches the search and the category, as often as it is loaded, in loaded order |
| SymptomLibrary.EmptyQueryMatchesAll | src/pages/Symptoms.tsx:63-65 | an empty search matches every symptom |
| SymptomLibrary.NoFilterShowsAll | src/pages/Symptoms.tsx:62-69 | an empty search with `all` selected lists every symptom |
| SymptomLibrary.SearchIgnoresQueryCase | src/pages/Symptoms.tsx:64-65 | lower-casing the query does not change what matches |
| SymptomLibrary.GroupByCategory | src/pages/Symptoms.tsx:72-78 | the reduce throws exactly when some category is a name inherited from `Object.prototype`; otherwise the keys are the categories in first-appearance order, and each key's group is exactly the symptoms of that category in list order |
| SymptomLibrary.AddToGroup | src/pages/Symptoms.tsx:73-77 | for a category that is not an inherited name (on which the callback throws), creating the array when it is missing and pushing onto it turns the grouping of the symptoms so far into the grouping with the new symptom added |
| SymptomLibrary.CategoriesSpec | src/pages/Symptoms.tsx:72-78 | the keys are exactly the categories that occur, each once |
| SymptomLibrary.ExactlyOneGroup | src/pages/Symptoms.tsx:72-78 | every symptom lies in the group of its own category and in no other |
| SymptomLibrary.GroupKeepsOrder | src/pages/Symptoms.tsx:76 | each group keeps its symptoms in list order |
| SymptomLibrary.GroupSizesSum | src/pages/Symptoms.tsx:72-78 | the group sizes add up to the number of symptoms grouped |
| SymptomLibrary.CanEditIff | src/pages/Symptoms.tsx:120-122 | a doctor may edit exactly the non-global symptoms that are theirs; nobody may edit a global one |
| SymptomLibrary.CanEditWithoutDoctor | src/pages/Symptoms.tsx:120-122 | while the doctor is loading nothing is editable; without a profile only non-global symptoms without an owner are |
| SymptomLibrary.AddFormDefaults | src/pages/Symptoms.tsx:80-88 | the add dialog opens empty, in the first default category `General`, editing nothing |
| SymptomLibrary.SubmitSpec | src/pages/Symptoms.tsx:100-111 | a blank name does nothing and keeps the dialog open; otherwise the edited symptom is updated with the form, or a symptom is created, and the dialog closes |
| SymptomLibrary.EditThenSubmit | src/pages/Symptoms.tsx:90-111 | submitting the edit dialog unchanged updates that symptom with its own fields, a missing description as empty text |
| SummaryParser.GetIcon | src/components/consultation/TreatmentSummaryCard.tsx:17-24 | defines `getIcon`; its contract is stated by `GetIconIsFirstMatch` and `GetIconPriority` |
| SummaryParser.HeaderTitle | src/components/consultation/TreatmentSummaryCard.tsx:27-32 | defines the header test: the trimmed capture of the plain pattern, else of the numbered one; characterised by `BoldShapeIsHeader`, `NumberedShapeIsHeader` and `HeaderHasShape` |
| SummaryParser.Sections | src/components/consultation/TreatmentSummaryCard.tsx:26-45 | the declarative segmentation that `parseSummary` is proved to compute (`ScanIsSections`), characterised by `SectionsFollowHeaders`, `SectionCount` and `PreambleSection` |
| SummaryContent.Inline | src/components/consultation/TreatmentSummaryCard.tsx:133-145 | defines `InlineFormatted`: one span per part of the split; characterised by `InlineLossless`, `InlineAlternates` and `InlineSpans` |
| SummaryContent.FormatContent | src/components/consultation/TreatmentSummaryCard.tsx:67-130 | defines `FormattedContent`: table mode or per-line blocks; characterised by `FormatTableIff`, `FormatTableRows` and `FormatBlocks` |
| SummaryContent.LineBlock | src/components/consultation/TreatmentSummaryCard.tsx:111-127 | defines the per-line rendering; characterised by `BulletIff`, `BulletStripped` and `BoldLineIsParagraph` |
| PatientIds.GeneratePatientId | src/hooks/usePatients.ts:88-108 | defines `generatePatientId` on the query's answer; characterised by `FirstOfYear`, `FollowsNumeral`, `JunkGivesNaN` and `GeneratedForm` |
| PatientIds.ParseInt | src/hooks/usePatients.ts:103 | `parseInt(s, 10)`: a number is only read when the text holds a digit; characterised by `ParseNumeral` and `ParseJunk` |
| PatientIds.LastSegment | src/hooks/usePatients.ts:103 | defines `split('-').pop() \|\| '0'`; characterised by `LastSegmentOfGenerated` |
| SymptomLibrary.AllCategories | src/pages/Symptoms.tsx:60 | defines `allCategories`; characterised by `AllCategoriesSpec` |
| SymptomLibrary.FilterSymptoms | src/pages/Symptoms.tsx:62-69 | defines `filteredSymptoms`; characterised by `FilterSymptomsSpec` |
| SymptomLibrary.CanEdit | src/pages/Symptoms.tsx:120-122 | defines `canEdit`; characterised by `CanEditIff` and `CanEditWithoutDoctor` |
| SymptomLibrary.OpenAddForm | src/pages/Symptoms.tsx:80-88 | defines `openAddForm`; characterised by `AddFormDefaults` |
| SymptomLibrary.OpenEditForm | src/pages/Symptoms.tsx:90-98 | defines `openEditForm`; characterised by `EditThenSubmit` |
| SymptomLibrary.Submit | src/pages/Symptoms.tsx:100-111 | defines `handleSubmit`'s guard and choice of action; characterised by `SubmitSpec` |

## Left out

- Rendering is left out: JSX, CSS classes, the icon and colour maps, React state and hooks, loading flags, and the component around `parseSummary`. Only the data each component draws is modelled.
- The database is left out. `generatePatientId` takes the query's answer as a parameter. The code reads only `data` and ignores the query's `error`, so a failed lookup behaves like an empty year and gives `EH-<year>-0001`: in the model that is `lastId` being `None`, as `FirstOfYear` states. `GenerateFromStore` stands for the query over a list of stored identifiers. Row-level security, concurrency between two doctors generating at once, and the database's collation are not modelled. The query's order is taken to be code-unit order. For the finding this does not matter, because `9` sorts after `1` in any collation.
- The clock is left out: the year is a parameter.
- Strings are sequences of Unicode code points, not of UTF-16 code units.
  - Order follows UTF-16 code units: `Less` ranks characters from U+E000 to U+FFFF above every character outside the Basic Multilingual Plane, as `sort()` and the text-ordered query do.
  - Lengths and positions count code points. A character outside the Basic Multilingual Plane is one position here and two in JavaScript. The lengths the code uses do not depend on this: `padStart` only meets digits and `NaN`, and `slice(2, -2)` only removes ASCII stars.
  - `toLowerCase` lowers ASCII letters only. The keywords of `getIcon` and the page's search are compared under that rule.
  - `\s` and `trim()` share one white-space set: ASCII space characters, Unicode space separators, line terminators and the byte-order mark.
- Numbers are unbounded integers.
  - `String(n)` is modelled for the values `nextNumber` can take.
  - The exponent notation JavaScript uses from 1e21 on is not modelled.
  - `parseInt` in JavaScript yields a double, which loses precision above 2^53. Two long numeric suffixes can then read as the same number and give the same next identifier. The model reads every numeral exactly and cannot show this.
- `created_at` on a symptom is not modelled. The order in which the page lists the groups follows the insertion order of `groupedSymptoms`. That order is only the JavaScript object-key order for keys that do not look like array indices.
- `createPatient`, `updateSymptom`, `createSymptom` and `deleteSymptom` are left out. Submitting returns the action it asks for rather than performing it.
- The prompt in supabase/functions/generate-treatment-summary/index.ts (lines 50-95) asks for an `INTRO_SECTION:` opening and `---SECTION_BREAK---` lines between sections. `parseSummary` looks for neither marker. Such lines are treated as ordinary text: the `INTRO_SECTION:` line opens the `विश्लेषण` section, and a break line becomes part of the content of the section it falls in. The model does the same.
- Table header cells are drawn as they are, without inline formatting (line 87). Only body cells go through `InlineFormatted`.
- In per-line mode each line is its own bullet or paragraph block. Consecutive bullets are not grouped into one list.

## Findings

| source | as written | input that shows it | evidently intended | confidence | as-written member | corrected member |
|---|---|---|---|---|---|---|
| src/hooks/usePatients.ts:92-107 | the highest identifier of the year is found by ordering `patient_id` as text, and its last part plus one is the next number | stored `EH-<year>-9999` and `EH-<year>-10000`: the query returns `…-9999`, so the identifier generated is `EH-<year>-10000`, which already exists, from then on for every new patient | the next number is one more than the greatest number of the year, compared as numbers, so the identifier is always new | not executed | PatientIds.StringOrderCollision | PatientIds.FreshIdIsNew |
