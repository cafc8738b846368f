# brutoliquido, modelled in Dafny

brutoliquido converts between gross salary (*bruto*), gross less the
social-security contribution (*bruto sem INSS*) and net salary (*líquido*)
under the Brazilian INSS and IRPF schedules in force at a given date. This
project models its core and proves properties of that model:

- `misc.py` — `currency2float`, which normalises a currency string
  (`R$ 1.234,56`) into a numeral for `float()` (module `Misc`, over the
  Python string helpers of module `Text`);
- `tablereader.py` — the loader of the dated schedule files: `line_gen`,
  `str_to_float`, `read_tables` and the `halfway_gen` / `table_gen` /
  `reader` pipeline that turns rows with start and finish into brackets
  (module `TableReader`, with `Floats` for numbers that may be `inf` and
  `Sorting` for Python's stable `sorted`);
- `main.py` — the date-keyed dictionary `DateStrKeyDict` (module `DateKeys`,
  a class over a map, since its lookups memoise in place) and the salary
  arithmetic `obtem_valores_tabela`, `inss`, the contribution ceiling,
  `bruto_sem_inss2liquido`, `todos_valores` and `ajax_calc` (module `Salary`).

The Python errors the code can raise are modelled as values
(`Results.Error`: `ValueError`, `TypeError`, `KeyError`, `IndexError`,
`NameError`, `StopIteration`, plus `NoConvergence` for the root finder), and
each operation returns a `Result`. `float()` is a parameter `parse`, the
current time is a parameter `now`, and the two numerical inverses computed
with `findroot` are parameters returning `Option`.

The loops that build state step by step are methods with loop invariants.
`TableReader.LineGen`, `TableReader.ReadTables` and
`TableReader.HalfwayGen` / `HalfwayLoop` are each proved equal to a
function. `DateKeys.DateStrKeyDict.EncontraDataBase` is proved against the
relation `IsLatestBefore` (the greatest key before the date) and the
predicate `NothingBefore`. The rest is functions and lemmas.

`__missing__` (main.py:77-81) stores back only the answer for a `None`
query, so `Missing` changes the map only for `None`.

## Model

| member | source | states |
|---|---|---|
| Misc.Trim | misc.py:30-32 | the stripped, space-free text with the currency symbol cut off holds no space |
| Misc.FirstSeparator | misc.py:33-34 | `min(".,", key=val.index)` picks the separator that occurs first: its first index is below the other's |
| Misc.ResolveSeparators | misc.py:33-36 | no comma survives; the text is empty exactly when its input is; every character came from the input or is a point |
| Misc.ResolveWithoutComma | misc.py:33-36 | text without a comma passes through unchanged |
| Misc.ResolveFirstComma | misc.py:33-36 | when the comma comes first, every comma is removed and the points stay |
| Misc.ResolveOnlyComma | misc.py:35-36 | text without a point has each comma turned into a point ("1234,56" reads as 1234.56) |
| Misc.ResolveFirstPoint | misc.py:33-36 | when the point comes first, the points are removed and the commas become points |
| Misc.ResolveSeparatorsPoints | misc.py:33-36 | the number of points left is the number of separators that survive |
| Misc.CollapsePoints | misc.py:37-39 | the intended collapse of repeated points leaves exactly one point and no new character |
| Misc.CollapsePointsKeepsFirst | misc.py:37-39 | the point kept is the first one: the text up to and including it is unchanged, and no point follows it |
| Misc.Currency2FloatAsWritten | misc.py:28-42 | fails only with TypeError; when it succeeds it agrees with the corrected Currency2Float |
| Misc.Currency2FloatAsWrittenFails | misc.py:37-39 | the as-written code fails exactly when more than one point survives separator resolution |
| Misc.RepeatedPoint | misc.py:37-39 | for digits a.b.c the as-written code raises TypeError, while the corrected one yields a.bc |
| Misc.Currency2Float | misc.py:28-42 | empty normalised text gives 0.0 (Zero) exactly when the trimmed input is empty; otherwise the numeral is non-empty, with no comma, no space and at most one point |
| Misc.Currency2FloatKeepsDigits | misc.py:28-42 | normalisation keeps every non-separator character of the trimmed input, in order |
| Misc.ThousandsPointDecimalComma | misc.py:30-36 | "R$ a.b,c" with digit groups reads as the numeral ab.c |
| Misc.BrazilianNormalised | misc.py:30-36 | a Brazilian-format amount resolves to one decimal point, the thousands point dropped |
| Misc.TwoPointsNormalised | misc.py:33-37 | a text with two points and no comma reaches the repeated-point branch unchanged |
| Misc.TrimStartingWithSymbol | misc.py:31-32 | for a value already stripped and free of spaces that starts with the currency, its first two characters are dropped and the rest is left-stripped |
| Misc.SymbolSliceIsTwoCharacters | misc.py:31-32 | `val[2:]` cuts two characters whatever the currency's length: "US$" leaves "$" in front |
| Misc.Currency2FloatOf | misc.py:40-42 | a non-empty resolved text with at most one point is the numeral handed to `float()` |
| Misc.Currency2FloatValue | misc.py:28-42 | the value of `currency2float`: the given zero for an empty normalised text, otherwise `float()` (the parameter) of the numeral; its properties are those of Currency2Float |
| Floats.Midpoint | tablereader.py:81 | half the sum of two finite numbers is finite and lies between them, in either order |
| Sorting.Sort | tablereader.py:77 | the sort keeps length and multiset of elements |
| Sorting.SortSorted | tablereader.py:77 | the sort's output is ordered by key |
| Sorting.SortIdentity | tablereader.py:87 | the stable sort returns already sorted input unchanged |
| TableReader.Cleaned | tablereader.py:35 | a line cut at the comment symbol and right-stripped holds no comment symbol and no trailing space |
| TableReader.KeptLines | tablereader.py:28-37 | the lines line_gen yields: the non-empty cleaned lines, in order; specified by LineGen and the KeptLines lemmas below |
| TableReader.LineGen | tablereader.py:28-37 | the generator's loop yields exactly the kept lines of the file |
| TableReader.KeptLinesAppend | tablereader.py:34-37 | the kept lines of two runs of lines are those of the first, then those of the second |
| TableReader.KeptLinesSound | tablereader.py:34-37 | every kept line is non-empty and is the cleaned form of some input line; no more lines than in the file |
| TableReader.KeptLinesComplete | tablereader.py:34-37 | every input line whose cleaned form is non-empty is kept |
| TableReader.KeptLinesClean | tablereader.py:35-36 | kept lines are non-empty, free of the comment symbol and of trailing space |
| TableReader.StrToFloat | tablereader.py:39-42 | `str_to_float`; its meaning is stated by StrToFloatPercent |
| TableReader.StrToFloatPercent | tablereader.py:39-42 | a "%" makes the value its currency reading (first "%" removed) times 0.01; without "%" it is the plain reading |
| TableReader.ParseFields | tablereader.py:63 | `map(str_to_float, …)` over the fields yields one value per field |
| TableReader.ParseFieldsPointwise | tablereader.py:63 | value i is field i's reading; a failure is that of the first field that fails, every earlier field having been read |
| TableReader.Zip | tablereader.py:64 | `dict(zip(schema, values))` only has keys among the first min(len) schema names |
| TableReader.ZipSize | tablereader.py:64 | with distinct column names the row has exactly min(len) entries |
| TableReader.ZipValues | tablereader.py:64 | with distinct column names each of the first min(len) names maps to its own value |
| TableReader.ParseRow | tablereader.py:63-64 | a continuation line's fields parsed and zipped with the schema, or the first parse error; see ParseFields and Zip |
| TableReader.Schema | tablereader.py:59 | the header line gives one column name per ";" field: the field with only its surrounding whitespace cut, so holding no ";" and neither starting nor ending with whitespace |
| TableReader.Step | tablereader.py:62-68 | one line of the loop keeps the reading well formed |
| TableReader.Sections | tablereader.py:61-68 | the loop over the remaining lines keeps the reading well formed |
| TableReader.ReadTablesOf | tablereader.py:44-69 | what read_tables returns: StopIteration when no line is kept, else the sections read after the header line; specified by ReadTables, OneSection, AppendRows and SectionsAppend |
| TableReader.ReadSections | tablereader.py:61-69 | the loop that updates the dictionary and the open header in place computes the fold of Step over the body lines |
| TableReader.ReadTables | tablereader.py:44-69 | the method computes read_tables: StopIteration on a file with no kept line, else the sections read after the schema line |
| TableReader.ParsedRows | tablereader.py:63-65 | a run of continuation lines parses to one row per line |
| TableReader.ParsedRowsPointwise | tablereader.py:63-65 | row i is line i's row; a failure is that of the first line that fails |
| TableReader.AppendRows | tablereader.py:62-65 | continuation lines under an open header append their rows, in order, to that header's list |
| TableReader.OneSection | tablereader.py:61-68 | a header followed by its continuation lines makes that header's list exactly their rows |
| TableReader.SectionsAppend | tablereader.py:61-68 | reading two runs of lines is reading the first, then the second from where it left off |
| TableReader.OrphanContinuation | tablereader.py:62-65 | a continuation line before any header raises NameError once its row parses |
| TableReader.Others | tablereader.py:82 | the yielded data holds every column but the start and finish keys, with its values |
| TableReader.SortedByStartRows | tablereader.py:77 | sorting by start is a permutation: the same multiset of rows |
| TableReader.SortedByStartOrdered | tablereader.py:77 | rows sorted by start have ascending starts |
| TableReader.Halfway | tablereader.py:73-84 | ValueError for fewer than two schema names, TypeError for an empty table, otherwise one item per row plus a closing item without data |
| TableReader.HalfwaySorted | tablereader.py:77-84 | halfway_gen is the item scan of the sorted rows, or KeyError when a row lacks the finish key |
| TableReader.HalfwayGen | tablereader.py:73-84 | the generator's method computes Halfway |
| TableReader.HalfwayLoop | tablereader.py:76-84 | the loop over sorted rows yields the item scan then the last finish, or KeyError |
| TableReader.Items | tablereader.py:76-82 | one item per row, in order; its starts are stated by ItemsAt |
| TableReader.ItemsAt | tablereader.py:78-82 | item i starts at the row's start when there is no (non-empty) previous row, else halfway between that start and the previous finish |
| TableReader.HalfwayShape | tablereader.py:73-84 | the first item starts at the first start, each next one at the midpoint of its start and the previous finish, the closing item at the last finish; the rows are a permutation of the table (same multiset), ascending by start |
| TableReader.Emit | tablereader.py:88-97 | each item emits at most one element, at its own start, whose payload has the shape the schema's length asks for |
| TableReader.EmitAll | tablereader.py:87-97 | table_gen's loop over the sorted items, stopping at the first error; its order is stated by EmitAllOrdered |
| TableReader.EmitAllOrdered | tablereader.py:87-97 | items in ascending start order emit elements in ascending order |
| TableReader.TableGen | tablereader.py:86-97 | `table_gen`: halfway_gen's items sorted, then emitted; its properties are stated by TableGenOrdered and ScheduleTableGen |
| TableReader.TableGenOrdered | tablereader.py:86-97 | table_gen's output is in ascending start order and every payload fits the schema |
| TableReader.ReaderOf | tablereader.py:99-103 | IndexError on empty output; a final bare start is split off as the limit; otherwise the output ends in a bracket |
| TableReader.Reader | tablereader.py:99-103 | `reader`: ReaderOf applied to table_gen's output; its properties are stated by ReaderOf and ScheduleReader |
| TableReader.StartsAscending | tablereader.py:77 | a contiguous schedule's starts ascend |
| TableReader.ScheduleSortedByStart | tablereader.py:77 | sorting a contiguous schedule by start leaves it unchanged |
| TableReader.ScheduleHalfway | tablereader.py:73-84 | a contiguous schedule's items are its rows in order, then the last finish |
| TableReader.ScheduleItemsSorted | tablereader.py:87 | a schedule's items are already in table_gen's order |
| TableReader.ScheduleTableGen | tablereader.py:86-97 | table_gen of a schedule is one bracket per row, then the last finish when finite |
| TableReader.ScheduleReader | tablereader.py:73-103 | reader of a schedule succeeds with one bracket per row; it has a limit exactly when the last finish is finite, and the limit is that finish |
| DateKeys.LexLessTotal | main.py:75 | string comparison is total and asymmetric |
| DateKeys.KeyLessOrder | main.py:75 | keys (None below every string) form a strict total order |
| DateKeys.LatestBeforeUnique | main.py:75 | the greatest key before a date is unique |
| DateKeys.DateStrKeyDict.EncontraDataBase | main.py:70-75 | a key present is returned as is; otherwise the greatest key before the date (now for None), and ValueError exactly when there is none |
| DateKeys.DateStrKeyDict.Missing | main.py:77-81 | the value stored under the resolved key; only a None query is stored back, and nothing else changes |
| DateKeys.DateStrKeyDict.Get | main.py:77-81 | a present key's value without change, otherwise what `__missing__` gives |
| Salary.Round2 | main.py:133-145 | Python 2's `round(x, 2)`, halves away from zero; its properties are stated by Round2Cents, Round2Exact and Round2Monotone |
| Salary.Round2Cents | main.py:134 | `round(x, 2)` is a whole number of cents within half a cent of x |
| Salary.Round2Exact | main.py:145 | rounding a whole number of cents changes nothing |
| Salary.Round2Monotone | main.py:142 | rounding keeps order |
| Salary.ObtemValoresTabela | main.py:108-112 | IndexError exactly on an empty table |
| Salary.Pick | main.py:110-112 | the `reduce` of obtem_valores_tabela; its result is stated by PickLast |
| Salary.PickLast | main.py:110-112 | the reduce yields the values of the last row reached, or the zeros it starts from |
| Salary.ObtemValoresBracket | main.py:108-112 | on an ascending table the values are those of the bracket holding the amount |
| Salary.ObtemValoresBelow | main.py:109 | below the first floor the values are zeros, as many as the first row has |
| Salary.Teto | main.py:94-97 | the ceiling is the limit salary charged at the last row's rate less deduction, to the cent; IndexError on an empty table or short row |
| Salary.Inss | main.py:114-116 | the contribution never exceeds the ceiling nor the bracket charge and is one of them; IndexError on an empty table, ValueError when the lookup is not a pair |
| Salary.InssAtLimit | main.py:94-97 | at the limit salary the contribution is within half a cent of the ceiling |
| Salary.BrutoSemInss2Liquido | main.py:118-120 | net pay is the base less the income tax its own bracket charges; IndexError on an empty table, ValueError when the lookup is not a pair |
| Salary.Pair | main.py:115 | unpacking a tuple into two names succeeds only on a pair, giving its two values |
| Salary.TodosValoresAsWritten | main.py:131-148 | the reported IR rate and deduction are the bracket at the gross pay |
| Salary.TodosValoresAgree | main.py:131-148 | the code as written and the corrected breakdown succeed together and agree on every figure except the reported IR rate and deduction |
| Salary.TodosValoresAsWrittenAddsUp | main.py:131-148 | for the code as written, ir + liquido == bruto_sem_inss exactly; bruto_sem_inss + inss is the gross within a cent; inss stays under a whole-cent ceiling |
| Salary.TodosValoresRateMismatch | main.py:136 | a gross pay of 1050 shows a 7.5% rate with zero tax and a net pay the reported rate does not reproduce |
| Salary.TodosValores | main.py:131-148 | gross pay unchanged; the reported INSS and IR rates are the brackets the amounts are computed with; amounts rounded to the cent |
| Salary.RoundedBreakdown | main.py:134-145 | cent rounding keeps tax + net == base and base + contribution within a cent of gross |
| Salary.TodosValoresAddsUp | main.py:131-148 | ir + liquido == bruto_sem_inss exactly; bruto_sem_inss + inss is the gross within a cent; inss stays under a whole-cent ceiling |
| Salary.Currency2FloatReader | main.py:166-167 | `currency2float` as applied to each request field: Misc.Currency2FloatValue with the zero 0.0 |
| Salary.Fields | main.py:166-167 | the three inputs are read in order, one number per input, the first failure wins |
| Salary.FieldsPointwise | main.py:166-167 | each number read is its own field's reading; a failure is that of the first field that fails, every earlier field having been read |
| Salary.Dispatch | main.py:170-182 | more than one non-zero input is rejected before anything is solved, and only then |
| Salary.AjaxCalc | main.py:160-185 | an unreadable number gives the "not recognised" reply exactly when reading fails with ValueError; readable inputs go on to Dispatch |
| Salary.DispatchBrutoSemInss | main.py:174-182 | a base alone skips the first inverse: NoConvergence when the second fails, else the breakdown of its gross rounded to the cent |
| Salary.DispatchBruto | main.py:174-182 | a gross pay alone is broken down directly, rounded to the cent |
| Salary.DispatchLiquido | main.py:176-182 | a net pay alone goes through both inverses, the base rounded to the cent in between |

## Left out

- File and network I/O: `uopen`, `load_table`, `load_txt`, the Flask routes, `static_file_converted`, `index`, `error_json` and the JSON reply. The file contents are a sequence of lines.
- The module-level tables (`inss_pares`, `inss_teto`, `inss_tabela`, `irpf_tabela`, `datas_base`) built at import time. The salary functions take the tables and ceiling for the resolved date as parameters.
- The conversion of `reader`'s output into the rows the salary code unpacks. `Salary` works on rows of a floor and a tuple of finite values. It therefore does not model a one-value payload, a bare float or an infinite floor reaching `obtem_valores_tabela`.
- `float()`: a parameter. Negative infinity and nan are not modelled (`Floats.Num` is a finite real or `inf`), and the salary inputs are finite reals.
- Binary floating point: arithmetic is exact on reals, including `round(x, 2)` (halves away from zero) and `* 1e-2`.
- `findroot` (`liquido2bruto_sem_inss`, `bruto_sem_inss2bruto`): parameters returning `None` when the solver does not converge. Their accuracy is not modelled.
- `datetime.now().isoformat()`: the parameter `now`.
- `ajax_calc`'s resolution of the request date through `DateStrKeyDict.EncontraDataBase` and the `data_base` field of its reply. The tables for the date are parameters of `Salary.AjaxCalc`.
- Generators are modelled by the sequences they yield. Laziness and partial consumption are not modelled.
- TableReader.TableGen: `sorted(halfway_gen(table))` (tablereader.py:87) orders two items with the same start by Python 2's comparison of their data. The model ranks the closing item (data `None`) below any dictionary. Two items with the same start and different non-empty data keep halfway_gen's order, where Python 2 would compare the dictionaries.
- Salary.AjaxCalc: reads the request fields with the corrected `Misc.Currency2Float` (see "## Findings"). Text such as `"1.234.567"` is therefore answered as `1.234567`, whereas the code raises a TypeError that `except ValueError` (main.py:168) does not catch.
- Salary.Dispatch: builds its reply with the corrected `Salary.TodosValores` (see "## Findings"). The reported IR rate and deduction are therefore those of the bracket of `bruto_sem_inss`, whereas main.py:136 reports those of `bruto`.
- TableReader.StrToFloat: reads fields with the corrected `Misc.Currency2Float`, and so do `ParseFields`, `ReadTablesOf` and `ReadTables`. A schedule field with two thousands points is read as a number, whereas the code raises TypeError out of `read_tables` at import time.
- Misc.Trim: `val[2:]` is modelled as written (two characters whatever the currency). Only the default `"R$"` is used by the code.

## Findings

| source | as written | input that shows it | evidently intended | confidence | as-written member | corrected member |
|---|---|---|---|---|---|---|
| misc.py:39 | `".".join(a, b)` passes two arguments to `str.join`, which raises TypeError | `currency2float("1.234.567")` | keep the first point and drop the later ones: `val[:idx] + "." + rest` | high, not executed | Misc.Currency2FloatAsWritten | Misc.Currency2Float |
| main.py:136 | the IR rate and deduction reported by `todos_valores` are looked up at `bruto` | gross 1050, flat 10% INSS, IRPF brackets 0 → (0, 0) and 1000 → (7.5%, 75): base 945, tax 0, reported rate 7.5% | look them up at `bruto_sem_inss`, the amount the tax is charged on | medium, not executed | Salary.TodosValoresAsWritten | Salary.TodosValores |
