# Maur WMS core, modelled in Dafny

Maur WMS is a small warehouse management desktop application. All of its
logic lives in `att2612.py`. It keeps three TinyDB tables in `db.json`:
products (`produtos`), storage slots (`posicoes`) and orders (`pedidos`).
On top of them it runs:

- a six-digit unique code generator (`gerar_codigo`);
- a batch builder that creates the slot codes `deposito-letra-prateleira-nivel`
  for a letter range, a shelf count and a level count, skipping codes that
  already exist (`criar_posicoes_em_lote`);
- product registration (`salvar`);
- the dashboard counts: shipped and pending orders, and occupied and free slots;
- product search by name or SKU (`buscar`);
- the listing of the products stocked at one slot (`abrir_posicao`).

The project models these operations and proves what they guarantee.

- `records.dfy` (module `Records`): the three record types. Each has the
  fields the code reads and writes.
- `tables.dfy` (module `Tables`): a table is a sequence of records. TinyDB's
  `search` is an order-preserving filter. Lemmas cover it on concatenations,
  on always-true conditions and on complementary conditions.
- `text.dfy` (module `Text`): decimal rendering of integers (`str`), `zfill`,
  `lower`/`upper` on the Latin-1 letters and substring search (`in` on
  strings).
- `slots.dfy` (module `Slots`): slot codes and their rendering, the letter
  range, and the order in which the three nested loops offer slots.
  `InsertMissing` is the table after each offered code is inserted when
  absent. The file proves what a batch adds, and that adding it keeps codes
  unique.
- `queries.dfy` (module `Queries`): the dashboard counts, the slot contents
  filter and the search predicate.
- `warehouse.dfy` (module `Warehouse`): the database as a class whose
  methods update its tables in place. `CreateSlotsBatch` is the three loops,
  proved to leave exactly the table `InsertMissing` describes. `GenerateCode`
  is the retry loop of `gerar_codigo`. `RegisterProduct` is `salvar`.

Some behaviours of the code that the model keeps as they are:

- Shelf and level numbers are not zero-padded: `f"{deposito}-{l}-{p}-{n}"`
  yields `1-A-1-1`.
- An empty search term matches every product, because `"" in s` always holds
  (`Queries.EmptyEntryListsAll`).
- Free slots are computed as `len(posicoes) - ocupadas`. This is negative when
  products sit in more distinct positions than there are slot records
  (`Queries.OrphanSlotMakesFreeNegative`).
- A letter outside `A`-`Z` makes `letras.index` raise before anything is
  inserted, so no data changes; the exception is not caught.

## Model

| member | source | states |
|---|---|---|
| Tables.Search | att2612.py:23 | `tabela.search(cond)` keeps exactly the records satisfying the condition, and never more records than the table holds |
| Tables.WithValue | att2612.py:23 | `tabela.search(Q[campo] == valor)` holds exactly the records whose field equals `valor`; it is empty iff no record has that value |
| Tables.SearchAppend | att2612.py:32 | searching a concatenation is the concatenation of the searches, so results keep table order |
| Tables.SearchAll | att2612.py:162-163 | a condition every record meets returns the whole table |
| Tables.SearchSameCondition | att2612.py:32 | two conditions that agree on every record give the same search |
| Tables.SearchPartition | att2612.py:32-33 | the matches of a condition and of its negation add up to the table size |
| Tables.DistinctSnoc | att2612.py:77-78 | appending a record absent from a duplicate-free table keeps it duplicate-free |
| Text.NatStr | att2612.py:76 | `str(n)` for n >= 0 is a non-empty digit string with no `-` and, for n > 0, no leading zero |
| Text.IntStr | att2612.py:76 | `str(i)` is non-empty and starts with `-` exactly when i is negative |
| Text.NatStrValue | att2612.py:22 | the digits of `str(n)` read back as n |
| Text.NatStrInjective | att2612.py:76 | distinct naturals render differently |
| Text.IntStrInjective | att2612.py:76 | distinct integers render differently |
| Text.NatStrWidth | att2612.py:22 | a value below 10^e renders in at most e digits, so `zfill(6)` only pads values up to 999999 |
| Text.ZerosValue | att2612.py:22 | the padding `zfill` adds reads as zero |
| Text.LeadingZerosValue | att2612.py:22 | leading zeros do not change the value a digit string reads as |
| Text.ZFill | att2612.py:22 | `s.zfill(w)` for an unsigned numeral: `s` left-padded with `0` up to width `w` |
| Text.ZFillPads | att2612.py:22 | `zfill` reaches width `w` (or keeps a longer `s`), keeps `s` as its tail and puts only `0` before it |
| Text.PaddedCode | att2612.py:22 | `str(randint(1, 999999)).zfill(6)` is exactly six digits and reads back as the drawn number |
| Text.PaddedCodeInjective | att2612.py:22 | distinct draws give distinct codes |
| Text.Lower | att2612.py:160 | `lower()` maps each character (Latin-1 capitals to their small letters) and keeps the length |
| Text.Upper | att2612.py:140 | `upper()` maps each character (Latin-1 small letters with a one-character capital to it) and keeps the length |
| Text.LowerForgetsCase | att2612.py:160-163 | under the modelled case mapping, lower-casing is idempotent and erases a prior upper-casing |
| Text.IsSubstring | att2612.py:163 | `termo in nome`: `t` occurs in `s` at some position; the empty string occurs in every string |
| Text.LowerOfDigits | att2612.py:163 | a digit string is its own lower-case form |
| Slots.SlotCode.Render | att2612.py:76 | the f-string `f"{deposito}-{l}-{p}-{n}"`: depot, letter, shelf and level joined by `-`, numbers unpadded |
| Slots.RenderInjective | att2612.py:76 | two slot codes render to the same string iff they are the same depot, letter, shelf and level |
| Slots.LastDashOf | att2612.py:76 | the last `-` of a rendered code is the one before the level |
| Slots.SplitAtLastDash | att2612.py:76 | a code splits uniquely at its last `-` |
| Slots.LetterIndex | att2612.py:72-73 | `letras.index(c)` is below 26 and points at c |
| Slots.LetterRange | att2612.py:73 | the slice `letras[index(ini):index(fim) + 1]` has `fim - ini + 1` letters (none when fim < ini), ascending from ini |
| Slots.LetterRangeMembers | att2612.py:73 | the slice holds exactly the letters from ini to fim, in ascending order |
| Slots.Alphabet | att2612.py:72 | `string.ascii_uppercase` has 26 letters |
| Slots.AppendInOrder | att2612.py:73-75 | two runs in loop order, the first wholly before the second, concatenate in loop order |
| Slots.LastLetter | att2612.py:73 | the letters of a range are those before its last one plus the last, which is the greatest |
| Slots.LevelSlots | att2612.py:75-76 | the slots the level loop offers for one letter and shelf, in loop order |
| Slots.ShelfSlots | att2612.py:74-76 | the slots the shelf and level loops offer for one letter, in loop order |
| Slots.LetterSlots | att2612.py:73-76 | the slots the three loops offer for a sequence of letters, in loop order |
| Slots.BatchSlots | att2612.py:73-76 | the slots one call offers, for the letters `letra_ini`..`letra_fim` |
| Slots.BatchCodes | att2612.py:73-76 | the codes one call offers, in loop order |
| Slots.LevelSlotsSpec | att2612.py:75-76 | the level loop offers `max(niveis, 0)` slots, exactly levels 1..niveis, in ascending order |
| Slots.ShelfSlotsLength | att2612.py:74-76 | one letter offers `max(prateleiras, 0) * max(niveis, 0)` slots |
| Slots.ShelfSlotsMembers | att2612.py:74-76 | one letter offers exactly shelves 1..prateleiras times levels 1..niveis |
| Slots.ShelfSlotsOrder | att2612.py:74-76 | shelf by shelf, level by level within a shelf |
| Slots.LetterSlotsLength | att2612.py:73-76 | a letter sequence offers its length times shelves times levels slots |
| Slots.LetterSlotsMembers | att2612.py:73-76 | exactly the given letters times shelves times levels |
| Slots.LetterSlotsOrder | att2612.py:73-76 | for ascending letters, offered letter by letter, then shelf, then level |
| Slots.BatchSlotsSpec | att2612.py:73-76 | a batch offers (letters * shelves * levels) slots, exactly those in the three ranges, in nesting order |
| Slots.Renders | att2612.py:76 | one code per offered slot: the i-th code renders the i-th slot |
| Slots.RendersAppend | att2612.py:76 | codes of a concatenation are the concatenated codes |
| Slots.RendersSnoc | att2612.py:76 | the codes of one more slot are the previous codes plus its code |
| Slots.WithCode | att2612.py:77 | `posicoes.search(Q.codigo == codigo)` is empty iff no record has that code |
| Slots.InsertMissing | att2612.py:77-78 | the table after each offered code is inserted when no record has it; the old table stays a prefix, and at most one record per offered code is added |
| Slots.InsertMissingSnoc | att2612.py:77-78 | offering one more code inserts it exactly when it is not yet in the table |
| Slots.InsertMissingAppend | att2612.py:73-78 | offering `a` then `b` is offering `a + b` |
| Slots.InsertMissingContents | att2612.py:77-78 | existing records stay first and unchanged; afterwards a record is present iff it was before or its code was offered |
| Slots.InsertMissingDistinct | att2612.py:77-78 | a table with no duplicate codes keeps none |
| Slots.InsertMissingPresent | att2612.py:77 | offering codes that all exist changes nothing |
| Slots.InsertMissingIdempotent | att2612.py:71-78 | running the same batch twice is the same as running it once |
| Slots.SlotsOf | att2612.py:78 | the records `{"codigo": c}` for codes, position by position |
| Slots.SlotsOfSnoc | att2612.py:78 | records of one more code, and membership by code |
| Slots.AbsentSnoc | att2612.py:77 | the absent codes of one more code |
| Slots.InsertMissingExact | att2612.py:77-78 | for distinct offered codes, the new table is the old one followed by the absent codes in offering order |
| Slots.BatchCodesDistinct | att2612.py:73-76 | a batch never offers a code twice, and offers (letters * shelves * levels) codes |
| Slots.BatchCodesMembers | att2612.py:73-76 | a slot's code is offered iff its depot, letter, shelf and level lie in the ranges, and every offered code is such a slot's code |
| Slots.BatchCoversRanges | att2612.py:71-78 | after a batch, every slot in the ranges has a record and the old records are kept as a prefix |
| Slots.BatchAppendsMissing | att2612.py:71-78 | a batch appends exactly the missing codes in loop order; on a table with none of them it adds all letters * shelves * levels |
| Slots.EmptyRangeNoChange | att2612.py:73-75 | a reversed letter range or a non-positive shelf or level count leaves the table unchanged |
| Slots.RenderSingleDigits | att2612.py:76 | single-digit parts render without padding, as in `1-A-1-1` |
| Slots.ExampleCode | att2612.py:76 | `SlotCode(1, l, p, n)` renders as `1-l-p-n` for shelves and levels 1..2 |
| Slots.ExampleSlots | att2612.py:73-75 | depot 1, letters A..B, 2 shelves, 2 levels offer the eight slots in loop order |
| Slots.BatchExample | att2612.py:71-78 | that batch offers `1-A-1-1`, `1-A-1-2`, `1-A-2-1`, ..., `1-B-2-2` in that order |
| Queries.CountOrders | att2612.py:32-33 | `atendidos` counts the orders with status `EXPEDIDO`, `pendentes` the others; both are non-negative and sum to the table size |
| Queries.CountOrdersSnoc | att2612.py:32-33 | one more order adds one to exactly one of the two counts, chosen by its status |
| Queries.Occupies | att2612.py:53 | a product counts towards occupancy when its position is non-empty and its quantity positive |
| Queries.OccupiedSlots | att2612.py:50-54 | the set of positions of the products that occupy one |
| Queries.OccupiedBound | att2612.py:50-54 | there are no more distinct occupied positions than products with a position and a positive quantity |
| Queries.CountOccupancy | att2612.py:49-55 | `ocupadas` counts distinct non-empty positions of products with quantity > 0, and `ocupadas + livres` is the slot count |
| Queries.IdleProductIgnored | att2612.py:53 | a product with no position or no stock does not change the counts |
| Queries.SlotCodesBound | att2612.py:49 | there are no more distinct slot codes than slot records |
| Queries.FreeNonNegative | att2612.py:55 | if every stocked position is a slot record, `livres` is not negative |
| Queries.SubsetCard | att2612.py:50-55 | a subset of positions is no larger |
| Queries.OrphanSlotMakesFreeNegative | att2612.py:55 | a stocked product at a position with no slot record gives `livres = -1` on an empty slot table |
| Queries.OccupancyExample | att2612.py:49-55 | eight slots and one stocked product at `1-A-1-1` give one occupied and seven free |
| Queries.InSlot | att2612.py:210 | `(Q.posicao == codigo) & (Q.quantidade > 0)` |
| Queries.SlotContents | att2612.py:210 | `search((Q.posicao == codigo) & (Q.quantidade > 0))` holds exactly the stocked products at that slot |
| Queries.SlotContentsMatchOccupancy | att2612.py:210-211 | a slot shows products iff the dashboard counts it as occupied |
| Queries.Matches | att2612.py:163 | `termo in p["nome"].lower() or termo == p["sku"]` with `termo` the lower-cased entry |
| Queries.SearchProducts | att2612.py:160-163 | a product is listed iff the lower-cased term occurs in its lower-cased name or equals its SKU |
| Queries.SearchProductsAppend | att2612.py:162 | results follow table order |
| Queries.EmptyEntryListsAll | att2612.py:160-163 | an empty term lists every product |
| Queries.SearchIgnoresCase | att2612.py:160 | under the modelled case mapping, upper- or lower-casing the term gives the same result |
| Queries.SearchFindsByName | att2612.py:163 | under the modelled case mapping, a product is found by its full name, typed as stored or upper-cased |
| Queries.AccentedSearchExample | att2612.py:160-163 | a product named `AÇÚCAR` is listed for `açúcar` and not for `ACUCAR` |
| Queries.SearchFindsBySku | att2612.py:163 | a product with a numeric SKU is found by it |
| Warehouse.IsFree | att2612.py:23 | `not tabela.search(Q[campo] == codigo)`: no record holds the value |
| Warehouse.GenerateCode | att2612.py:20-24 | the result is the first draw whose six-digit code is held by no record: all earlier draws were taken |
| Warehouse.Warehouse.constructor | att2612.py:13-16 | the database opens with the given tables |
| Warehouse.Warehouse.CreateSlotsBatch | att2612.py:71-78 | with valid letters, the slot table becomes exactly `InsertMissing(old, BatchCodes(...))`; an invalid letter changes nothing; unique codes stay unique |
| Warehouse.Warehouse.AddShelves | att2612.py:74-78 | the shelf loop for one letter offers that letter's slots |
| Warehouse.Warehouse.AddLevels | att2612.py:75-78 | the level loop inserts each level's code exactly when it is absent |
| Warehouse.Warehouse.RegisterProduct | att2612.py:135-141 | one product is appended, with the position upper-cased and as SKU the six-digit code of the first supplied draw that no old product holds; unique SKUs stay unique |

## Left out

- Windows, widgets, charts and screen navigation (`limpar`, the `tela_*` screens, `grafico_*` drawing): user interface only. The counts the charts draw are modelled.
- TinyDB's storage, `db.json` persistence and document ids: tables are in-memory sequences, and `insert` appends.
- Warehouse.GenerateCode: the random source is a parameter, the sequence of values `random.randint(1, 999999)` returns. The model covers runs where one of the supplied draws is free, and does not model an endless run when every code is taken.
- Warehouse.Warehouse.RegisterProduct: `int(qtd.get())` parsing and its ValueError are not modelled; the quantity arrives as an integer.
- Warehouse.Warehouse.CreateSlotsBatch: letters arrive as single characters. Multi-character or empty letter entries, which `str.index` would also accept, are not modelled, and neither is the `int(...)` parsing of the depot, shelf and level entries.
- Text.Lower: the case mapping covers the Latin-1 letters and `Ÿ`; every character outside Latin-1 other than `Ÿ` is kept unchanged (including Latin Extended letters such as `Œ`, `Š`, `Ł`), and mappings that change length (`İ` lower-cases to two characters) are not modelled.
- Text.Upper: the case mapping covers the Latin-1 small letters with a one-character capital and `ÿ`; `ß` (Python gives `SS`), `µ` (Greek `Μ`), `ı`, `ſ`, ligatures such as `ﬁ`, and every character outside Latin-1 other than `ÿ` (including Latin Extended letters such as `œ`, `š`, `ł`) are kept unchanged.
- Text.LowerForgetsCase: holds for the modelled mapping; in Python `"ß".upper().lower()` is `"ss"` and `"µ".upper().lower()` is `"μ"`, and `ı`, `ſ` and ligatures do not round-trip either.
- Queries.SearchIgnoresCase: holds for the modelled mapping; in Python an upper-cased term with `ß`, `µ`, `ı`, `ſ` or a ligature lower-cases to other characters and can give a different result.
- Queries.SearchFindsByName: the upper-cased name is found under the modelled mapping; in Python a name containing `ß`, `µ`, `ı`, `ſ` or a ligature is not found by its upper-cased form.
- Text.PaddedCode: modelled only for the range `randint` draws from (1..999999), which is the only way the code uses `zfill`.
