# recolector-eventos: the decision procedures, in Dafny

`recolector-eventos` collects tourism and culture events for Mendoza. It
searches the web with Google Custom Search, asks an LLM to turn each page
into a JSON record, reconciles venue and organiser names against official
catalogs with fuzzy matching, and stores the result in CSV files and MySQL.
Most of the code is glue around HTTP, LLM, pandas and SQLAlchemy calls.
Inside that glue sit small, deterministic procedures, and this project
models them as pure Dafny functions and proves what they do:

- **Closed-set mappers** (`Mappers`, from `scripts/procesar_eventos.py` and
  `scripts/clasificar_eventos_culturales.py`). These are the first-match,
  case-insensitive substring scans `mapear_tipo_evento`,
  `mapear_detalle_rotacion` and `mapear_tema`, plus the cultural
  `mapear_tipo_evento`, both on strings and on the decoded reply field,
  where any value that is not a string raises at `.lower()`.
- **Date normalisers** (`Calendar`, `Normalise`). These are the two
  `formatear_fecha` versions. Each is built on a model of
  `datetime.strptime` for `%Y-%m-%d` and `%d/%m/%Y`, of `datetime.date`,
  and of Python's `int`, `isdigit`, `split`, `strip` and `lower`.
- **Markdown-fence strippers** (`Fences`). These are `limpiar_raw_response`,
  which is the same function in both pipelines, and the `s[7:-4].strip()`
  slice of `scripts/clasificar_eventos.py`.
- **The search crawler** (`Search`, `scripts/search.py`):
  - venue chunking and query construction;
  - the (event type × chunk) schedule;
  - the cursor written to `progreso.json`;
  - credential rotation on HTTP 429.

  The crawler is a fold over the search API's answers, with every request,
  every persisted cursor and every flush recorded in a `Run`.
- **Fuzzy reconciliation** (`Fuzzy`):
  - the two per-row loops `corregir_sedes` and
    `asignar_entidades_organizadoras`, which accept at a score of 90;
  - the column rewrite `corregir_sede_fuzzy`, which accepts at 85.

  The scorer `process.extractOne` is a parameter.
- **Row transforms** (`Transforms`, over the pandas model in `Frames`):
  - the organiser-name normaliser of `scripts/script_auxiliar.py`;
  - the `agrupacion` assignment of `scripts/limpiar_na.py`;
  - the `Verificación` filter of `scripts/cambiar_comas.py`.
- **The event-extraction pipeline** (`Classify`,
  `scripts/clasificar_eventos.py`):
  - the link loop of `procesar_eventos_de_links`, with its fence slice,
    `sitioWeb` stamping, rate-limit stop, column rename and default columns;
  - `pd.DataFrame` on a list of records;
  - the field mapping of `guardar_eventos`;
  - the dict/list flattening of the module-level loop.

Every outside service becomes an input:
- The LLM's replies are arbitrary strings (`Visit`, `Answer`, `Reply`).
- `json.loads` is a finite map from reply text to decoded value (`Decoder`). A text outside the map is a `JSONDecodeError`.
- The fuzzy scorer is a function `(query, catalog) -> Option<Match>` (`Scorer`).
- The search API's answers are a `Replies` value: a finite list of outcomes `Ok(items) | Status(code) | Transport`, then one outcome repeated forever.

A pandas `DataFrame` is an ordered list of labels plus rows of cells. A
missing value is `Null`, and `row.get` answers `None` for an absent label.

Text is modelled code point by code point:
- `lower()` and `isspace()` follow Python for code points below U+0100;
- `splitlines()` recognises Python's full set of line boundaries;
- `strptime` is modelled as the regular expressions CPython compiles for `%Y`, `%m` and `%d`, tried in CPython's order, restricted to ASCII digits: CPython's `\d` also matches every other Unicode decimal digit, which this model does not;
- `isdigit()` accepts the ASCII digits and the superscripts ¹, ² and ³, and `int()` reads ASCII numerals only.

For `%m` and `%d` the alternatives are tried in a fixed order. A later
separator never rescues a shorter match in the two layouts used here, so the
first alternative that matches decides.

Three places where the code does not do what it evidently means to do are
listed under Findings. For each one, the model keeps the code as written and
proves the discrepancy. It also proves the intended property of a corrected
definition.

## Model

| member | source | states |
|---|---|---|
| Text.Lower | scripts/procesar_eventos.py:12 | lower-casing keeps the length |
| Text.LowerConcat | scripts/procesar_eventos.py:12 | lower-casing distributes over concatenation |
| Text.ContainsLower | scripts/procesar_eventos.py:25 | a containment survives lower-casing both sides, so a case-sensitive match is also a case-insensitive one |
| Text.Strip | scripts/procesar_eventos.py:115 | the result has no whitespace at either end, and it is empty exactly when the input is all whitespace |
| Text.StripShape | scripts/procesar_eventos.py:115 | the input is a whitespace run, then the stripped text, then a whitespace run |
| Text.StripIdempotent | scripts/clasificar_eventos_culturales.py:192 | stripping twice is stripping once |
| Text.IndexOf | scripts/script_auxiliar.py:65 | the result is the first position where the separator occurs, and it is absent only when the separator occurs nowhere |
| Text.Split | scripts/script_auxiliar.py:65 | the pieces joined by the separator give back the input, there is at least one piece, and no piece contains the separator |
| Text.SplitFirst | scripts/script_auxiliar.py:65 | the first piece of a split is the text before the first occurrence of the separator, or the whole text |
| Text.Words | scripts/procesar_eventos.py:136 | every word is a non-empty run free of whitespace, and the words joined together spell the text with its whitespace removed |
| Text.WordsSkipSpace | scripts/procesar_eventos.py:136 | whitespace before the first word adds no word |
| Text.WordsCons | scripts/procesar_eventos.py:136 | a non-empty whitespace-free run followed by whitespace is the first word, and the rest is split after that whitespace, so the words are the maximal runs in order |
| Text.SplitLines | scripts/procesar_eventos.py:166 | no line holds a line boundary, and only the empty text has no lines |
| Text.SplitLinesJoin | scripts/procesar_eventos.py:166 | boundary-free lines joined by a newline split back into the same lines when the last line is non-empty |
| Text.PyIntDigits | scripts/procesar_eventos.py:142 | `int` of a plain decimal numeral is its value |
| Text.PyIntRefusesSuperscripts | scripts/clasificar_eventos_culturales.py:238 | a year token that `isdigit` accepts because of a superscript digit is refused by `int`, so the parse fails instead of defaulting to 2025 |
| Text.PyIntRefusesLetterStart | scripts/clasificar_eventos_culturales.py:239 | `int` refuses a token that begins with a letter |
| Calendar.DaysInMonth | scripts/procesar_eventos.py:153 | every month has 28 to 31 days |
| Calendar.MakeDate | scripts/clasificar_eventos_culturales.py:241 | `datetime.date(y, m, d)` gives that date exactly when it is a valid proleptic Gregorian date in years 1-9999, and fails otherwise |
| Calendar.LeapDay | scripts/clasificar_eventos_culturales.py:259 | 29 February is accepted exactly in leap years |
| Calendar.ParseIso | scripts/procesar_eventos.py:119 | `strptime(s, "%Y-%m-%d")` only ever yields valid dates |
| Calendar.ParseIsoIff | scripts/procesar_eventos.py:119-120 | the ISO parse yields date d exactly when d is valid and the text spells d as four year digits, a dash, a one- or two-digit month, a dash and a day |
| Calendar.ParseDmy | scripts/procesar_eventos.py:125 | `strptime(s, "%d/%m/%Y")` only ever yields valid dates |
| Calendar.ParseDmyIff | scripts/procesar_eventos.py:125-126 | the day-first parse yields date d exactly when d is valid and the text spells d as day, slash, month, slash and four year digits |
| Calendar.YearAtSound | scripts/procesar_eventos.py:119 | a `%Y` match is four digits spelling its value |
| Calendar.MonthAtSound | scripts/procesar_eventos.py:119 | a `%m` match spells its month, padded or not |
| Calendar.MonthAtComplete | scripts/procesar_eventos.py:119 | every spelling of a month that is not followed by a digit is read as that month |
| Calendar.DayAtSound | scripts/procesar_eventos.py:125 | a `%d` match spells its day, padded, unpadded or space-padded |
| Calendar.DayAtComplete | scripts/procesar_eventos.py:125 | every spelling of a day that is not followed by a digit is read as that day |
| Calendar.IsoRoundTrip | scripts/procesar_eventos.py:119-120 | the ISO parse reads back `isoformat()` of any valid date |
| Calendar.DmyRoundTrip | scripts/procesar_eventos.py:125-126 | the day-first parse reads back `strftime("%d/%m/%Y")` of any valid date |
| Calendar.FormatIso | scripts/procesar_eventos.py:119-120 | the ISO spelling the first `strptime` layout reads is ten characters: digits with dashes at positions 4 and 7 |
| Calendar.FormatDmy | scripts/procesar_eventos.py:125-126 | the day-first spelling the second layout reads is ten characters: digits with slashes at positions 2 and 5 |
| Calendar.DmyNeedsSlash | scripts/procesar_eventos.py:124 | a text the day-first parse accepts contains "/", so the `"/" in` guard never hides a date |
| Calendar.IsoAndDmyDisjoint | scripts/procesar_eventos.py:118-128 | no text is accepted by both layouts, so the order in which they are tried does not matter |
| Mappers.FirstMatch | scripts/procesar_eventos.py:11-13 | the result is the earliest entry whose lower-case form occurs in the lower-cased text, and it is absent only when no entry matches |
| Mappers.Scan | scripts/procesar_eventos.py:11-14 | the scan returns the earliest matching entry, or the fallback when no entry matches |
| Mappers.ScanUnique | scripts/procesar_eventos.py:11-14 | any answer that meets the first-match description is the one the scan gives |
| Mappers.ScanPicks | scripts/procesar_eventos.py:24-26 | when entry k matches and no earlier entry does, the scan returns entry k |
| Mappers.MapEventType | scripts/procesar_eventos.py:5-14 | on a string, the event type is the first matching entry of the 17-entry list, and the result is always a member of the list because the fallback is listed |
| Mappers.MapRotation | scripts/procesar_eventos.py:17-27 | on a string, the rotation is the first matching entry, or "NS/NC", and it is always a member of the list |
| Mappers.RotationNeverInternacional | scripts/procesar_eventos.py:18-26 | no input is ever mapped to "Internacional" or to any "Internacional - …" value |
| Mappers.InternacionalImpliesNacional | scripts/procesar_eventos.py:21 | any text mentioning "internacional" also matches "Nacional" |
| Mappers.InternacionalMapsToNacional | scripts/procesar_eventos.py:18-26 | a text that mentions "internacional" and none of the seven local or regional values is mapped to "Nacional" |
| Mappers.InternacionalValueMapsToNacional | scripts/procesar_eventos.py:22 | the value "Internacional" itself is mapped to "Nacional" |
| Mappers.RotationDistinct | scripts/procesar_eventos.py:18-23 | the rotation values are pairwise different |
| Mappers.MapTopic | scripts/procesar_eventos.py:43-62 | on a string, the topic is the first matching entry, or the input text unchanged |
| Mappers.MapCulturalType | scripts/clasificar_eventos_culturales.py:109-137 | the cultural type is the first matching entry of the 22-entry list, or "Otro tipo de evento" |
| Mappers.CulturalFallbackNotListed | scripts/clasificar_eventos_culturales.py:110-137 | the cultural fallback is not one of the list's values |
| Mappers.OtroCatchesTheRest | scripts/clasificar_eventos_culturales.py:131-136 | a text mentioning "otro" that matches none of the 21 earlier values is mapped to "Otro" |
| Mappers.CulturalFallbackRemaps | scripts/clasificar_eventos_culturales.py:132-137 | the fallback "Otro tipo de evento", mapped again, becomes "Otro" |
| Mappers.FallbackMissesValue | scripts/clasificar_eventos_culturales.py:111-131 | none of the 21 values before "Otro" occurs in "otro tipo de evento" |
| Mappers.OnText | scripts/procesar_eventos.py:12 | a mapper on `datos.get(key, '')` maps "" for an absent key and the text for a string, and raises `AttributeError` at `.lower()` exactly on any other decoded value, falsy ones included |
| Mappers.EventTypeField | scripts/procesar_eventos.py:80 | the decoded `tipoEvento` raises exactly when it is present and not a string; otherwise the result is the first-match scan of its text and a member of the 17-entry list |
| Mappers.RotationField | scripts/procesar_eventos.py:81 | the decoded `detalleTipoRotacion` raises exactly when it is present and not a string; otherwise the result is the first-match scan with fallback "NS/NC" |
| Mappers.TopicField | scripts/procesar_eventos.py:82 | the decoded `tema` raises exactly when it is present and not a string; otherwise the result is the first matching topic or the text itself |
| Mappers.CulturalTypeField | scripts/clasificar_eventos_culturales.py:168 | the decoded `tematica` raises exactly when it is present and not a string; otherwise the result is the cultural first-match scan with fallback "Otro tipo de evento" |
| Mappers.AbsentFieldFallsBack | scripts/procesar_eventos.py:80-82 | a key the reply leaves out gives "Otro tipo de evento", "NS/NC", "" and "Otro tipo de evento" respectively |
| Mappers.NullFieldRaises | scripts/procesar_eventos.py:80-82 | a JSON `null` under any of the four keys makes the mapper raise `AttributeError` |
| Normalise.CulturalExtendsCongress | scripts/clasificar_eventos_culturales.py:212-225 | every month name of the congress table is in the cultural table with the same number |
| Normalise.Caught | scripts/procesar_eventos.py:154-156 | the handler yields the date exactly when the parse returned one, and nothing when it raised |
| Normalise.Cultural | scripts/clasificar_eventos_culturales.py:188-265 | for either range-year rule: nothing for missing or placeholder input, only valid dates, the ISO reading first, then the day-first one, and any other date needs " de " in the text |
| Normalise.Congress | scripts/procesar_eventos.py:109-158 | for either final call: nothing for missing or placeholder input, only valid dates, the ISO reading first, then the day-first one, and any other date needs " de " in the text |
| Normalise.FormatDateCultural | scripts/clasificar_eventos_culturales.py:188-265 | on a string, the cultural normaliser gives nothing for missing or placeholder input, returns only valid dates, and prefers the ISO reading, then the day-first reading |
| Normalise.CulturalField | scripts/clasificar_eventos_culturales.py:188-192 | on the decoded `fecha` field: a falsy value gives None, a truthy non-string raises `AttributeError` at `.strip()` (exactly those inputs raise), and a string is read by the string normaliser |
| Normalise.CongressField | scripts/procesar_eventos.py:113-115 | the same for the three date fields of the congress reply |
| Normalise.NumberFieldRaises | scripts/procesar_eventos.py:115 | a non-zero number where a date was expected makes both normalisers raise rather than return None |
| Normalise.FormatDateCongress | scripts/procesar_eventos.py:109-158 | on a string, the congress normaliser gives nothing for missing or placeholder input, returns only valid dates, prefers the ISO reading, falls back to the day-first reading, and any date it returns is one of those two readings |
| Normalise.FormatDateCongressFixed | scripts/procesar_eventos.py:130-153 | the repaired congress normaliser returns only valid dates and still prefers the ISO reading, then the day-first reading |
| Normalise.FormatDateCulturalFixed | scripts/clasificar_eventos_culturales.py:228-241 | the repaired cultural normaliser returns only valid dates and still prefers the ISO reading, then the day-first reading |
| Normalise.NormalisersReadIso | scripts/procesar_eventos.py:118-120 | all four normalisers read the ISO spelling of a valid date as that date |
| Normalise.NormalisersReadDmy | scripts/clasificar_eventos_culturales.py:203-207 | all four normalisers read the day-first spelling of a valid date as that date |
| Normalise.ReachesTextual | scripts/procesar_eventos.py:130 | a text no numeric layout reads, holding " de " and no " al ", is decided by the textual reading |
| Normalise.ReachesRange | scripts/clasificar_eventos_culturales.py:228 | a text holding "del ", " al " and " de " that no numeric layout reads is decided by the range reading whenever the textual fallback behind it would give nothing |
| Normalise.YearWordValue | scripts/clasificar_eventos_culturales.py:238 | a year token is its number when it is all digits, and 2025 otherwise |
| Normalise.LetterYear | scripts/clasificar_eventos_culturales.py:238 | a token that starts with a letter is read as the year 2025 |
| Normalise.CulturalTextualDate | scripts/clasificar_eventos_culturales.py:246-259 | "D de MES de AÑO" gives date(AÑO, MES, D), with an unknown month read as January and a non-numeric year read as 2025 |
| Normalise.TextualNeedsDigitStart | scripts/clasificar_eventos_culturales.py:251-257 | a text starting with a letter never gives a date through the textual reading |
| Normalise.CongressTextualNone | scripts/procesar_eventos.py:130-156 | as written, because line 2 binds `datetime` to the class, the congress normaliser turns no "D de MES de AÑO" text into a date |
| Normalise.CongressFixedTextualDate | scripts/procesar_eventos.py:132-153 | with a real date constructor, "D de MES de AÑO" gives date(AÑO, MES, D) from the congress month table |
| Normalise.CaughtConstructor | scripts/procesar_eventos.py:153-156 | a date constructor that raises on invalid dates, under the handler, is `MakeDate` |
| Normalise.RangeStartOf | scripts/clasificar_eventos_culturales.py:230-241 | the range reading of "del D1 al D2 de MES de AÑO" is day D1 of MES, in the year its year rule picks |
| Normalise.RangeIgnoresYear | scripts/clasificar_eventos_culturales.py:234-238 | as written, a range gives day D1 of MES of 2025, whatever AÑO says |
| Normalise.RangeFixedKeepsYear | scripts/clasificar_eventos_culturales.py:227-241 | with the year read from the last piece, a range gives day D1 of MES of AÑO |
| Normalise.TextualExample | scripts/procesar_eventos.py:130-158 | "10 de julio de 2025" gives 10 July 2025 in the cultural version and the repaired congress version, and nothing in the congress version as written |
| Normalise.RangeExample | scripts/clasificar_eventos_culturales.py:227-241 | "del 10 al 12 de julio de 2024" gives 10 July 2025 as written and 10 July 2024 once repaired |
| Fences.CleanRawResponse | scripts/procesar_eventos.py:161-172 | a reply that does not start with a fence is returned unchanged, and a fenced reply comes back with no whitespace at either end |
| Fences.FirstLineIsFence | scripts/clasificar_eventos_culturales.py:270-273 | in a reply that starts with a fence, the first line starts with the fence, so it is always dropped |
| Fences.FencedRoundTrip | scripts/procesar_eventos.py:165-171 | "```tag", the body lines and "```" joined by newlines come back as the stripped body |
| Fences.UnclosedFence | scripts/procesar_eventos.py:169-171 | without a closing fence line only the opening line is dropped |
| Fences.CleanGivenLines | scripts/clasificar_eventos_culturales.py:270-276 | once the reply's lines are known, the result is the remaining lines, without a closing fence line, joined and stripped |
| Fences.UnwrapJsonFence | scripts/clasificar_eventos.py:193-194 | a reply not starting with "```json" is used unchanged, and a fenced one comes back stripped |
| Fences.JsonSliceCuts | scripts/clasificar_eventos.py:194 | exactly seven characters in front and four behind are cut, whatever they are, before stripping |
| Fences.JsonSliceShort | scripts/clasificar_eventos.py:194 | a "```json" reply of at most 11 characters leaves the empty text |
| Fences.JsonSliceOther | scripts/clasificar_eventos.py:193 | any other reply is passed on untouched |
| Fences.FenceStrippersAgree | scripts/clasificar_eventos.py:193-194 | on a one-line body in a well-formed "```json" fence, the slice and `limpiar_raw_response` give the same text |
| Frames.Position | scripts/clasificar_eventos.py:148 | a label's position is its first occurrence, and it is absent exactly when the label is not a column |
| Frames.Column | scripts/limpiar_na.py:6 | `df[name]` raises `KeyError` exactly when the label is missing, and otherwise holds each row's cell |
| Frames.WithColumn | scripts/clasificar_eventos.py:222-225 | an absent label is appended with null in every row, a present one changes nothing, and every old cell is kept |
| Frames.SetAt | scripts/correccion_sedes.py:70 | `df.at[i, name] = v` sets that cell, creates the column null elsewhere when it is absent, and changes no other cell |
| Frames.KeepRows | scripts/cambiar_comas.py:5 | the kept rows are exactly the rows holding the value, and every kept row is an input row |
| Frames.KeepRowsConcat | scripts/cambiar_comas.py:5 | filtering two blocks of rows is filtering each block in turn, so the kept rows keep their relative order |
| Frames.FilterEq | scripts/cambiar_comas.py:5 | the filter raises `KeyError` on a missing column, and otherwise keeps the columns and exactly the rows whose cell equals the value |
| Frames.AssignWhere | scripts/limpiar_na.py:6 | the masked assignment sets the target in exactly the matching rows, keeps or nulls it elsewhere, and touches no other column |
| Frames.Masked | scripts/limpiar_na.py:6 | once the key column is found, matching rows get the value and other rows keep their target cell |
| Frames.MaskSet | scripts/limpiar_na.py:7 | row by row, cell q becomes the value exactly where the key matches, and every other cell is kept |
| Frames.ApplyCells | scripts/corregir_sedes.py:22 | `apply` succeeds exactly when the function succeeds on every cell, and then each output cell is the function's value on its input cell |
| Frames.ApplyColumn | scripts/corregir_sedes.py:22 | rewriting one column raises `KeyError` when it is missing, and otherwise maps each of its cells and leaves every other column alone |
| Frames.Replaced | scripts/corregir_sedes.py:22 | the replaced column holds the new cells and every other column is unchanged |
| Frames.DropNull | scripts/correccion_sedes.py:19 | `dropna` keeps exactly the non-null cells |
| Frames.Unique | scripts/correccion_sedes.py:19 | `unique` has no repeats and keeps exactly the values of its input |
| Frames.UniqueOfDistinct | scripts/asignar_entidad.py:8 | a column without repeats comes back from `unique` as it is |
| Frames.Catalog | scripts/correccion_sedes.py:19 | the catalog holds each non-null value of the column exactly once, and raises `KeyError` when the column is missing |
| Fuzzy.Decide | scripts/correccion_sedes.py:62-68 | the row is cleared ("No") exactly when the score reaches the threshold, and then it takes the best match; otherwise it gets "NO_MATCH" and "Sí" |
| Fuzzy.DecideMonotone | scripts/asignar_entidad.py:47-52 | raising the score never turns an accepted match into a rejected one |
| Fuzzy.DecideBoundary | scripts/correccion_sedes.py:62 | a score of exactly 90 is accepted and 89 is not |
| Fuzzy.RowStep | scripts/correccion_sedes.py:29-86 | a missing, empty or non-string URL writes the error cells, any other failure writes the error cells, and the loop stops exactly on a rate limit after a usable URL |
| Fuzzy.ClearedOnlyByMatch | scripts/asignar_entidad.py:44-57 | a row is marked "No" only when a model reply's catalog match scores at least 90, and then it holds that catalog member and the score |
| Fuzzy.EmptyCatalogErrors | scripts/correccion_sedes.py:60 | with an empty catalog the scorer has nothing to return, so every answered row writes the error cells |
| Fuzzy.AnsweredRowScored | scripts/correccion_sedes.py:57-73 | with a non-empty catalog an answered row is always scored: it writes the stripped reply and the score, and is cleared with the best match exactly when the score reaches 90, else marked "NO_MATCH" |
| Fuzzy.WriteRow | scripts/correccion_sedes.py:70-73 | the four assignments write the row's four cells and change no other cell, and a created column is null in every other row |
| Fuzzy.SetTwo | scripts/correccion_sedes.py:83-84 | two assignments to distinct columns of one row set both and change nothing else |
| Fuzzy.StopRow | scripts/correccion_sedes.py:77-79 | the stop row is the first row with a usable URL whose model call is rate-limited, or the row count |
| Fuzzy.StopRowAt | scripts/asignar_entidad.py:61-63 | any row that is rate-limited, and that no earlier rate-limited row precedes, is the stop row |
| Fuzzy.Reconcile | scripts/correccion_sedes.py:28-86 | the loop keeps the row count, keeps every column and adds only target columns, and leaves every cell of a column it does not write unchanged |
| Fuzzy.ReconcileFrom | scripts/correccion_sedes.py:28-86 | from any point of the loop, the rows before the stop row carry their own step's cells and the rows from it on keep their original cells |
| Fuzzy.ReconcileRows | scripts/correccion_sedes.py:28-86 | each row before the first rate-limited one carries its own step's four cells; that row and the later ones keep every cell, with null in created columns; columns the loop does not write are unchanged everywhere |
| Fuzzy.ReconcileAll | scripts/correccion_sedes.py:19 | the loop raises `KeyError` before any row exactly when the catalog column is missing |
| Fuzzy.CorrectVenues | scripts/correccion_sedes.py:7-19 | `corregir_sedes` raises `KeyError("Nombre")` exactly when the venue catalog lacks that column |
| Fuzzy.AssignEntities | scripts/asignar_entidad.py:7-8 | `asignar_entidades_organizadoras` raises `KeyError` exactly when the organisation catalog lacks "Entidad organizadores" |
| Fuzzy.TargetsWellChosen | scripts/asignar_entidad.py:54-57 | both loops write four distinct columns, none of them `sitioWeb`, so no row's URL is overwritten before it is read |
| Fuzzy.CorrectVenueCell | scripts/corregir_sedes.py:13-14 | a missing value is returned unchanged |
| Fuzzy.CorrectVenueCellResult | scripts/corregir_sedes.py:15-19 | on a non-empty catalog, a cell becomes the best catalog match exactly when the score reaches 85, and otherwise stays as it was, with no sentinel |
| Fuzzy.CorrectVenueEmptyCatalog | scripts/corregir_sedes.py:15 | with an empty catalog, unpacking the scorer's answer raises |
| Fuzzy.CorrectVenueColumn | scripts/corregir_sedes.py:9 | the rewrite raises `KeyError("Nombre")` when the venue catalog lacks that column |
| Fuzzy.CorrectVenueColumnResult | scripts/corregir_sedes.py:9-22 | only `sedeRaw_corregida` is rewritten, rows and their order are kept, and each rewritten cell is its old value or a catalog venue name |
| Transforms.CellText | scripts/script_auxiliar.py:65 | `astype(str)` turns a missing value into "nan" and leaves a string as it is |
| Transforms.OrganiserName | scripts/script_auxiliar.py:65 | the result holds no " - ", and it is the stripped text or the part before the first " - "; it is empty exactly when the stripped text is, and it never starts with whitespace |
| Transforms.OrganiserWithoutSeparator | scripts/script_auxiliar.py:65 | without a " - " the normaliser only strips |
| Transforms.OrganiserCutsAtFirst | scripts/script_auxiliar.py:65 | when " - " first occurs at k, the result is the stripped text's first k characters |
| Transforms.OrganiserOfMissing | scripts/script_auxiliar.py:65 | a missing organiser is written back as "nan" |
| Transforms.OrganiserNotIdempotent | scripts/script_auxiliar.py:65 | "A  - B" gives "A " with a trailing space, which a second pass strips to "A", so the normaliser is not idempotent |
| Transforms.NormaliseOrganisers | scripts/script_auxiliar.py:65 | the organiser column raises `KeyError` when it is missing, and otherwise each of its cells is normalised and every other column is unchanged |
| Transforms.MarkOutOfScope | scripts/limpiar_na.py:6-7 | the two assignments raise `KeyError("tipoEvento")` exactly when that column is missing, and otherwise keep the row count and add `agrupacion` only when it is absent |
| Transforms.MarkOutOfScopeRows | scripts/limpiar_na.py:6-7 | exactly the "Evento Cultural" and "Evento Deportivo Nacional" rows get "FUERA DEL ALCANCE DEL OETR"; every other row keeps its `agrupacion`, null when the column is new; rows and other columns are unchanged |
| Transforms.KeepVerified | scripts/cambiar_comas.py:5 | every kept row has `Verificación` equal to "VERDADERO", every such input row is kept, only input rows are kept, and the columns are unchanged |
| Transforms.KeepVerifiedOrder | scripts/cambiar_comas.py:5 | filtering two blocks is filtering each in turn, so the kept rows keep their relative order |
| Transforms.KeepVerifiedCaseSensitive | scripts/cambiar_comas.py:5 | the comparison is exact: a row holding "verdadero" is dropped |
| Search.LoadProgress | scripts/search.py:43-49 | without a progress file the cursor is (0, 0, 0), and otherwise it is the saved cursor |
| Search.Chunks | scripts/search.py:103-104 | the chunks concatenate back to the venue list in order, each holds 1 to 10 venues, and all but the last hold exactly 10 |
| Search.ChunkCount | scripts/search.py:104 | there are ceil(n / 10) chunks |
| Search.ChunkAt | scripts/search.py:104 | chunk k is the slice of the venues from 10k, up to 10 long |
| Search.BuildQuery | scripts/search.py:121-128 | the query starts with the quoted type, the quoted "2025" and an opening parenthesis, and ends with a closing parenthesis |
| Search.QueryRoundTrip | scripts/search.py:121-128 | reading the query back gives exactly the chunk's venues in order, when no venue holds a double quote |
| Search.PendingMembers | scripts/search.py:119-126 | the positions scheduled from (t, k) are exactly those at or after it in lexicographic order, below ten types and the chunk count |
| Search.PendingSorted | scripts/search.py:119-126 | the schedule is strictly increasing in lexicographic order, so no position is queried twice within one credential |
| Search.ResumeAt | scripts/search.py:124-126 | resuming at a scheduled position continues the same schedule |
| Search.ResumeAfter | scripts/search.py:147 | resuming from the persisted (t, k + 1) skips no pending position and repeats none, even when k + 1 is past the last chunk |
| Search.Halt | scripts/search.py:149-159 | a failed request always ends the sweep |
| Search.SweepList | scripts/search.py:126-159 | a sweep makes at most one request per position, at least one when there is any, and one per position when it completes |
| Search.SweepCalls | scripts/search.py:126-138 | request i of a sweep is at position i, under the sweep's credential |
| Search.SweepDone | scripts/search.py:140-159 | the successful positions are a prefix of the schedule answered by consecutive successes, and an unfinished sweep's last request failed |
| Search.SweepCompletes | scripts/search.py:126-147 | a sweep completes exactly when every reply it waits for is a success |
| Search.SweepStop | scripts/search.py:149-159 | an unfinished sweep ran out of quota exactly on a 429, escaped exactly on a non-HTTP exception, and ended the run exactly on another status |
| Search.SweepSaved | scripts/search.py:147-154 | each success persisted the cursor of the next chunk, in order, and a 429 persisted its own position under the next credential |
| Search.SweepListConcat | scripts/search.py:119-159 | sweeping two blocks of positions is sweeping the first, then the second if the first completed |
| Search.ChunksFollowRow | scripts/search.py:126 | the chunk loop walks the rest of its type's chunks in order |
| Search.TiposFollowSchedule | scripts/search.py:119-126 | the two nested loops walk the schedule from the start position: the start type from the start chunk, and every later type from chunk 0 |
| Search.SweepFrom | scripts/search.py:119-126 | a credential's sweep from a cursor is the schedule from that cursor |
| Search.SweepScheduled | scripts/search.py:119-128 | every request of a sweep is at an existing type and chunk, under the sweep's credential |
| Search.RunFrom | scripts/search.py:113-178 | the credential loop only appends to the requests, cursors and successes so far; it flushes once exactly on a normal return, and the unbound local arises exactly when no credential is left and `clave_agotada` was never assigned |
| Search.Crawl | scripts/search.py:81-178 | `busqueda_eventos` flushes once exactly on a normal return, never on an exception, and ends on the unbound local exactly when the persisted credential index is past the end |
| Search.CredentialPastEnd | scripts/search.py:113-175 | a persisted credential index past the last credential issues no request, persists nothing and flushes nothing, and the run ends on the unassigned `clave_agotada` |
| Search.FlushOnce | scripts/search.py:156-178 | the results are flushed exactly once on a normal return and never on an exception, and the unbound local arises exactly when the credential loop never ran |
| Search.FlushHolds | scripts/search.py:140-178 | items accumulate across credentials, so a flush holds the items of every successful request of the run, in request order |
| Search.SweepHits | scripts/search.py:140-142 | a sweep keeps the items of exactly the successful replies it received, in request order |
| Search.CrawlFlushOnce | scripts/search.py:106-178 | from the start: one flush on a normal return, holding the items of every successful request in request order, none otherwise, and an unbound local exactly when the persisted credential is past the end |
| Search.FirstSweepExhausted | scripts/search.py:149-155 | a success then a 429 ends the first credential's sweep after two requests, with (0, 0) done |
| Search.SecondSweepRestarts | scripts/search.py:171-172 | the second credential's sweep opens again at (0, 0) |
| Search.LastCredential | scripts/search.py:113-172 | the last credential's sweep is all that the loop adds to the run |
| Search.RotationRepeats | scripts/search.py:106-172 | without a progress file, a success then a 429 makes the second credential re-send the first query, and position (0, 0) is done twice |
| Search.SweepFromIndex | scripts/search.py:119-155 | a sweep over the rest of a schedule does a consecutive stretch of it, and a 429 persists the first position it did not do |
| Search.ResumeRest | scripts/search.py:154 | resuming inside the rest of a schedule continues that schedule |
| Search.FixedRunNoRepeats | scripts/search.py:154-172 | when each credential resumes from the cursor just persisted, the run's successful positions are a prefix of the schedule, so none is repeated or skipped |
| Search.FixedCrawlNoRepeats | scripts/search.py:106-172 | from any persisted cursor, the resuming run does each scheduled position at most once, in schedule order |
| Classify.Lookup | scripts/clasificar_eventos.py:197 | a key's value is found exactly when the key is present, and it is the value of an entry with that key |
| Classify.LookupOverwrite | scripts/clasificar_eventos.py:197 | after an overwrite, the key reads the new value and every other key reads its old value |
| Classify.LookupAppend | scripts/clasificar_eventos.py:197 | after appending a new key, the key reads the new value and every other key reads its old value |
| Classify.Stamp | scripts/clasificar_eventos.py:197 | after `d[key] = v` the key reads v, every other key reads its old value, and the key is appended only when it was absent |
| Classify.Stamped | scripts/clasificar_eventos.py:196-197 | only a decoded object is kept, stamped with the link under `sitioWeb`; any other decoded value ends the loop with a `TypeError` |
| Classify.Visit1 | scripts/clasificar_eventos.py:185-202 | a link that stops the loop stops it with a rate limit or an error, and a kept object's `sitioWeb` is the link's URL |
| Classify.Fold | scripts/clasificar_eventos.py:184-205 | the loop keeps at most one object per outcome |
| Classify.FoldEvents | scripts/clasificar_eventos.py:198 | every gathered object is the object of some kept outcome |
| Classify.Gather | scripts/clasificar_eventos.py:183-205 | at most one object per link is gathered, and each carries the URL of one of the links as its `sitioWeb` |
| Classify.FoldAppend | scripts/clasificar_eventos.py:184-205 | two runs of outcomes in a row: the second counts only when the first ran through |
| Classify.GatherAppend | scripts/clasificar_eventos.py:184-205 | two batches of links in a row: the second is read only when the first ran through |
| Classify.RateLimitStops | scripts/clasificar_eventos.py:204-205 | a quota error keeps the objects gathered before it and reads no later link |
| Classify.GatherOne | scripts/clasificar_eventos.py:185-202 | a run of one link is that link's outcome |
| Classify.ReplyObject | scripts/clasificar_eventos.py:193-198 | a reply that decodes to an object is kept, stamped with its link |
| Classify.ReplyUnparsed | scripts/clasificar_eventos.py:199-202 | a reply that does not decode is skipped |
| Classify.ReplyNotObject | scripts/clasificar_eventos.py:197 | a reply that decodes to anything but an object raises `TypeError` at the stamping and ends the loop |
| Classify.ProcessLinks | scripts/clasificar_eventos.py:207-225 | a frame is written exactly when some object was gathered; it is the frame of the gathered objects, one row each with a `sitioWeb` column; the renamed, completed frame is derived from it; the loop's error escapes exactly when the loop failed |
| Classify.AddNew | scripts/clasificar_eventos.py:209 | the new labels are appended without repeats, and nothing is lost |
| Classify.Labels | scripts/clasificar_eventos.py:209 | the frame's labels are exactly the keys of the records, without repeats |
| Classify.RowOf | scripts/clasificar_eventos.py:209 | a record's row holds its value under each label, or null where it has none |
| Classify.FromRecords | scripts/clasificar_eventos.py:209 | `pd.DataFrame(records)` has one row per record and one column per key some record has, and each cell is that record's value or null |
| Classify.Renamed | scripts/clasificar_eventos.py:213-220 | a label the table does not name keeps its name, and a named one takes its new name from the table |
| Classify.Rename | scripts/clasificar_eventos.py:220 | renaming changes labels only: the rows and the column count are unchanged |
| Classify.RenameGet | scripts/clasificar_eventos.py:220 | a column keeps its cells under its new name when no other column is renamed to the same label |
| Classify.RenameKeeps | scripts/clasificar_eventos.py:220 | a label that keeps its name and receives no other keeps its column through the rename |
| Classify.TableFacts | scripts/clasificar_eventos.py:213-219 | the table neither reads nor writes the two default labels, maps `sedeRaw` only onto itself and `sitioWeb` only onto `sitio_web` |
| Classify.SiteRenamed | scripts/clasificar_eventos.py:218 | `sitioWeb` becomes `sitio_web`, and no other label does unless it already had that name |
| Classify.Untouched | scripts/clasificar_eventos.py:213-219 | a label the table neither reads nor writes keeps its name and receives no other |
| Classify.VenueKept | scripts/clasificar_eventos.py:218 | `sedeRaw` keeps its name, and no other label is renamed to it |
| Classify.KeptLabels | scripts/clasificar_eventos.py:148-151 | the three labels `guardar_eventos` reads that the rename leaves alone keep their names, and receive no other |
| Classify.Defaults | scripts/clasificar_eventos.py:222-225 | both default columns exist afterwards, are null only where they were absent, and every existing cell is kept |
| Classify.Prepare | scripts/clasificar_eventos.py:213-225 | the prepared frame keeps the row count, holds every column under its renamed label and both default columns, and holds no other column |
| Classify.ToEvento | scripts/clasificar_eventos.py:134-151 | each of the 17 fields is absent exactly when the frame lacks the column `row.get` reads for it |
| Classify.SaveEvents | scripts/clasificar_eventos.py:125-163 | an empty frame gives no event; otherwise there is one event per row, each of its 17 fields read with `row.get` from the column the source names (`sede` from `sedeRaw`, `entidad_organizadora` from `entidadOrganizadora`, `requiere_revision` from `requiereRevision`, the others from their own names) |
| Classify.SavedDefaults | scripts/clasificar_eventos.py:150-151 | if the renamed, completed frame were passed to `guardar_eventos` (the script drops it), every gathered object would become an event whose organiser and review flag are the object's own values, or null when it had none |
| Classify.SavedVenue | scripts/clasificar_eventos.py:148 | on that hypothetical save, each event's `sede` would be the object's `sedeRaw`, or null when another object has one, or `None` when no object has one |
| Classify.SavedSite | scripts/clasificar_eventos.py:149 | on that hypothetical save, each event's `sitio_web` would be the object's `sitioWeb`, as long as no object carries a `sitio_web` of its own |
| Classify.LinkReachesEvento | scripts/clasificar_eventos.py:149-197 | `procesar_eventos_de_links` produces a renamed, completed frame whenever it gathered something; were that frame passed to `guardar_eventos`, which the script never does, every event would carry the URL of one of the links |
| Classify.RowsOf | scripts/clasificar_eventos.py:238-249 | no reply, an undecodable one and an empty object add nothing, a non-empty decoded object adds one row, and a decoded list adds its elements in order |
| Classify.Collect | scripts/clasificar_eventos.py:233-256 | every collected row came from the decoded reply of one of the links |
| Classify.CollectOne | scripts/clasificar_eventos.py:233-256 | one link's answer collects to exactly that answer's rows |
| Classify.CollectAppend | scripts/clasificar_eventos.py:233-256 | collecting two runs of links is collecting each in turn, so the rows keep link order |

## Left out

- HTTP fetching is left out. This covers `extraer_contenido_web`, `get_website_text`, the BeautifulSoup cleanup and `requests`/`httpx`. A page fetch appears only through its effect on the loops: no content, a failure, or a reply.
- All LLM calls and prompts are left out. Replies are arbitrary strings, and a rate-limit error is one more possible reply.
- The fuzzy scorer `process.extractOne` is a parameter.
  - Fuzzy.ClearedOnlyByMatch, Fuzzy.AnsweredRowScored, Fuzzy.CorrectVenueCellResult: these assume a scorer that answers exactly when the catalog is non-empty, and whenever it answers, the answer is a member of the catalog. This is what `extractOne` does with its cutoff of 0. The scorer's score itself is not modelled.
- `json.loads` is a finite map from reply text to decoded value. Number formats, whitespace and escapes inside JSON are not modelled.
- File I/O is left out:
  - `pd.read_csv`, including its `FileNotFoundError` early returns;
  - `to_csv`, and the append-with-header logic of `guardar_resultados`;
  - `progreso.json`.

  A persisted cursor is an explicit value in `Run.saved`, and a flush is the list of items handed to `guardar_resultados`.
- Search results are opaque strings. The column filter and the empty-list early return inside `guardar_resultados` are not modelled; only the call and its argument are.
- The SQLAlchemy model, `session.add`, `commit` and `rollback` are left out. Classify.SaveEvents lists the events that would be added.
- `pd.to_datetime(..., errors='coerce')` on the three date fields of `guardar_eventos` is left out. `Evento` keeps the raw cell for those fields.
- `time.sleep` is left out. It is timing, not logic.
- Concurrency does not arise. Every script is sequential.
- `buscar_localidad_sede` is not part of this model. It relies on pandas regular-expression matching.
- The other scripts are not part of this model:
  - `main.py`;
  - `revisar_links.py`;
  - `models/evento_reuniones.py`;
  - the remaining helpers of `script_auxiliar.py`, other than line 65.
- Text.Lower: Unicode beyond U+00FF is left alone. `lower()` and `isspace()` are exact only below U+0100, and there is no case folding or normalisation.
- Calendar.ParseIsoIff: the accepted texts are those spelled in ASCII digits. CPython's `\d` also accepts the other Unicode decimal digits (Arabic-Indic, Devanagari and so on), so `strptime` reads texts this parse refuses.
- Calendar.ParseDmyIff: the same ASCII-digit restriction as Calendar.ParseIsoIff.
- Text.PyInt, Text.IsDigitText: `int()` is modelled for ASCII numerals, and `isdigit()` for the ASCII digits and the superscripts ¹, ² and ³. Other Unicode digits, which Python also accepts in both, are not modelled.
- Calendar.ParseIso, Calendar.ParseDmy: `strptime`'s locale handling is not modelled, and neither are its other directives. Its backtracking is replaced by the first matching alternative, which gives the same answer for these two layouts.
- The model does not prove, for every key of the cultural table, that it is a month word in the range reading's sense. The worked examples use "julio".
- Normalise.CulturalField, Normalise.CongressField: a JSON float in a date field is not modelled, because cells hold no floats. Python treats it like an integer: it raises unless it is 0.0.
- Mappers.OnText, Mappers.EventTypeField, Mappers.RotationField, Mappers.TopicField, Mappers.CulturalTypeField: a JSON float is not modelled, because cells hold no floats. It is not a string, so it raises like the other non-string values.
- Transforms.CellText: only null and string cells are stated. Numbers are written as integers, and `str(float)` formatting is left out because floats are not modelled.
- Classify.SavedSite: this assumes no decoded object already carries `sitio_web`. With one, pandas keeps two columns of that label, and `row.get` returns a Series. This case is not modelled.
- Classify.RenameGet: this assumes no two labels are renamed onto one, for the same reason.
- Classify.ProcessLinks models the code as it stands:
  - the CSV is written (line 210) from the frame *before* the rename;
  - the renamed frame with its default columns is a local that the function drops.

  `prepared` records what would have been saved. `guardar_eventos` is not called from this path, so Classify.SavedDefaults, Classify.SavedVenue, Classify.SavedSite and Classify.LinkReachesEvento describe a save the script could make but does not.
- Classify.RowsOf: the module-level loop calls `json.loads` on the raw reply, with no fence unwrap, and it catches every exception, rate limits included. A reply that is not a string is not modelled.
- Classify.Collect: its own contract states only where each row comes from. Classify.CollectOne and Classify.CollectAppend together determine it: the rows of each answer, given by Classify.RowsOf, in link order.
- Search.QueryRoundTrip: this assumes no venue name holds a double quote. A venue with one makes the query ambiguous to read back.
- Search.LoadProgress: a cursor holds natural numbers. Negative or non-integer values in a hand-edited `progreso.json` are not modelled.
- The search API's answers are a finite list, then one answer repeated. A run makes finitely many requests, so this loses no run.

## Findings

| source | as written | input that shows it | evidently intended | confidence | as-written member | corrected member |
|---|---|---|---|---|---|---|
| scripts/procesar_eventos.py:153 | line 2's `from datetime import datetime` binds the class, so `datetime.date(y, m, d)` calls the unbound method `date` with an int and raises `TypeError`; the handler returns None | "10 de julio de 2025" gives None | the textual branch returns `date(2025, 7, 10)`, as the cultural version does | not executed; high | Normalise.CongressTextualNone | Normalise.CongressFixedTextualDate |
| scripts/clasificar_eventos_culturales.py:234-235 | the range's year is the last word of the month segment (`resto.split(" de ")[1]`), which is the month name, so `isdigit` fails and the year is always 2025 | "del 10 al 12 de julio de 2024" gives 10 July 2025 | the year is the last piece, giving 10 July 2024 | not executed; high | Normalise.RangeIgnoresYear | Normalise.RangeFixedKeepsYear |
| scripts/search.py:171-172 | after a 429, the next credential restarts from the type and chunk loaded at startup, not from the cursor just persisted | no progress file; the first query succeeds, the second gets 429, the third succeeds: the first query is sent again and position (0, 0) is done twice | the next credential resumes at the position that ran out of quota (reload `progreso`), so no query is repeated | not executed; medium | Search.RotationRepeats | Search.FixedCrawlNoRepeats |
