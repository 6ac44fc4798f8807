# Elite Dangerous Rare Goods utilities — Dafny model

`edrg.py` loads a spreadsheet of rare trade goods (star systems, stations and
goods) into a database and queries it. Three parts of it are plain,
deterministic logic, and this project models them and proves their properties:

- **Column names** (`column`): an Excel column name such as `"A"`, `"R"` or
  `"DU"` becomes its 1-based column number. The numbering is bijective base 26:
  `a` is 1, `z` is 26, and there is no zero digit. The name is lower-cased, its
  last letter is looked up with `alphabet.index` (a ValueError for any other
  character), and the rest of the name is decoded recursively with the
  exponent one higher. Modelled in `columns.dfy` as `Columns.Column`. Its
  reference meaning is `Columns.Value`, the usual most-significant-first
  reading, and `Columns.Name` is its inverse.
- **Cell addresses** (`get_cell_value`, up to the sheet lookup): an address such
  as `"H2"` is lower-cased and must match `\A[a-z]+[0-9]+\Z`. The letters go
  through `column`, the digits through `int`, and both are shifted from 1-based
  to 0-based. In `rcformat` mode a `(row, column)` pair is only shifted. A
  failed match makes `match.group` raise AttributeError. Modelled in
  `cells.dfy` as `Cells.SheetIndex`.
- **Derived goods figures** (`Goods.expected_supply`, `min_value`, `max_value`,
  `expected_value`): integer midpoint and price products. Modelled in
  `goods.dfy` as member functions of `Catalog.Goods`.

`results.dfy` holds the result type that carries Python's exceptions as values.
`text.dfy` holds the string primitives: ASCII classes, `str.lower`, `int(s)` for
digit strings and `str(n)`.

`expected_supply` is written `(min_supply + max_supply) // 2` in the code. That
is floor division, not rounding to the nearest integer, so an odd sum rounds
down. The model follows the code; `Catalog.ExpectedSupplyRoundsDown` states the
consequence.

## Model

| member | source | states |
|---|---|---|
| `Text.Lower` | edrg.py:214 | lower-casing turns a character into a lower-case letter exactly when it was a letter; a capital becomes its own lower-case letter; characters other than capitals are unchanged |
| `Text.LowerStr` | edrg.py:236 | `str.lower` keeps the length and lowers every character in place |
| `Text.LettersIffLowered` | edrg.py:214-215 | a name is all ASCII letters exactly when its lower-cased form is all lower-case letters |
| `Text.Str` | edrg.py:109-111 | `str(row)` of a non-negative row is a non-empty string of digits |
| `Text.Decimal` | edrg.py:238 | `int(D)` of a string of k digits is a natural number below 10^k |
| `Text.DecimalOfStr` | edrg.py:238 | `int(str(n)) == n`: the digits the importers append are read back as the same row |
| `Columns.AlphabetIndex` | edrg.py:215-216 | `alphabet.index(c)` succeeds exactly on the lower-case letters, with index one less than the letter's digit; anything else raises ValueError |
| `Columns.AlphabetIndexIsIndex` | edrg.py:215-216 | that index is `str.index` on the alphabet string: the first position holding `c`, failing exactly when `c` is absent |
| `Columns.Column` | edrg.py:210-216 | `column(name, e)` raises nothing but ValueError, and a non-empty name's column is at least 26^e; its full meaning is `Columns.ColumnMeaning` |
| `Columns.ColumnMeaning` | edrg.py:210-216 | `column(name, e)` succeeds exactly when every character is an ASCII letter, raises ValueError otherwise, and then equals 26^e times the bijective base-26 value of the lower-cased name |
| `Columns.ColumnPositive` | edrg.py:212-216 | the empty name is column 0; every non-empty letter name is column 1 or more |
| `Columns.ColumnStep` | edrg.py:216 | step law: `column(s + c) == digit(c) + 26 * column(s)` for letters |
| `Columns.ColumnAccumulator` | edrg.py:216 | accumulator law: `column(s, e)` fails on the same names as `column(s)` and otherwise equals `26^e * column(s)` |
| `Columns.ColumnCaseInsensitive` | edrg.py:211-214 | names that lower-case alike give the same result, success or failure |
| `Columns.ColumnOfName` | edrg.py:210-216 | every natural number is the column of some name: `column(Name(n)) == n` |
| `Columns.ColumnInjective` | edrg.py:210-216 | two names with the same column are equal once lower-cased |
| `Columns.FirstSystemColumn` | edrg.py:67 | the system import's first column: `column('R') == 18`, and `column('r')` is the same |
| `Columns.LastSystemColumn` | edrg.py:68 | the system import's last column: `column('DU') == 125` |
| `Cells.SheetIndex` | edrg.py:233-241 | a (row, column) pair is never refused; the only failure is AttributeError; an accepted address gives a row of -1 or more and a column of 0 or more, with no further range check |
| `Cells.ParseLowered` | edrg.py:237-241 | on a lower-cased address the only failure is AttributeError, and an accepted one gives a row of -1 or more and a column of 0 or more |
| `Cells.LetterRun` | edrg.py:237 | the greedy `[a-z]+` takes the longest run of lower-case letters at the front |
| `Cells.SheetIndexAccepts` | edrg.py:236-239 | an address is accepted exactly when, lower-cased, it is one or more letters followed by one or more digits and nothing else; otherwise AttributeError |
| `Cells.SheetIndexOfSplit` | edrg.py:236-241 | for letters L followed by digits D the index is `(int(D) - 1, column(L) - 1)` |
| `Cells.AddressFormsAgree` | edrg.py:233-241 | `column name + str(row)` and the pair `(row, column(name))` give the same 0-based index |
| `Cells.SheetIndexExamples` | edrg.py:233-241 | `"H2"` is (1, 7); row 0 gives -1 because no range check is made; `"2H"`, `"h2x"` and `""` fail; `(0, 18)` in rcformat mode is (-1, 17) |
| `Catalog.Goods.ExpectedSupply` | edrg.py:136-137 | the expected supply is the floor of the midpoint: twice it is the bounds' sum or one less; with `min_supply <= max_supply`, `min_supply <= expected_supply <= max_supply` |
| `Catalog.ExpectedSupplyRoundsDown` | edrg.py:137 | an odd sum of bounds rounds down, an even one is halved exactly |
| `Catalog.Goods.MinValue` | edrg.py:140-141 | `min_value` is not negative when the price and the minimum supply are not |
| `Catalog.Goods.MaxValue` | edrg.py:144-145 | `max_value - min_value == price * (max_supply - min_supply)` |
| `Catalog.Goods.ExpectedValue` | edrg.py:148-149 | with a non-negative price and ordered bounds, `min_value <= expected_value <= max_value` |
| `Catalog.ExpectedValueMidpoint` | edrg.py:140-149 | `min_value + max_value == 2 * expected_value`, plus the price when the supply bounds sum to an odd number |

## Left out

- The trade-route optimisation (trip profit, sale-price curve, route search) does not exist in the code: edrg.py:284 is only a TODO comment.
- `System.distanceTo` (edrg.py:56-57): floating-point arithmetic and a square root.
- The spreadsheet import loops `System.import_`, `Station.import_`, `Goods.import_` and `import_data_from_excel`, including the `max_cap` cell-string heuristics: reading cells, `float()` and `round()`. Only their use of `column` and `str(row)` addresses is modelled.
- The `sheet.cell_value` lookup at the end of `get_cell_value`: a call into the spreadsheet library.
- The database layer: `session_scope`, `initialize_db`, `tquery`, the `add` class methods with the duplicate-name check in `System.add`, and the query-time translation of the goods figures into SQL expressions.
- The command-line interface, `strip` and `Goods.__str__`: argument parsing and formatting.
- The `System` and `Station` records and the station link of a good: only the parts above use them.
- Text.Lower: models `str.lower` for ASCII only. Python lowers all of Unicode, so a few non-ASCII characters (the Kelvin sign lowers to `k`) would pass `column` and the address pattern in Python but are rejected here.
- Columns.Column: the recursion has no depth limit. Python recurses once per character, so a name of roughly a thousand letters raises RecursionError where the model returns a column.
- Cells.SheetIndex: Python's interpreter limits are not modelled. A column part of roughly a thousand letters raises RecursionError in `column`, and on Python 3.11 and later `int()` raises ValueError for a row of more than 4300 digits. The model accepts both.
- Columns.Column: the exponent is a natural number. Python would also accept a negative one, which gives a float; no caller passes one.
